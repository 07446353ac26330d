/** The order that the documentation of pa_compare promises. */
module CompareDocumented {
  import opened Compare

  // The generated comparison departs from it at options, and only there.

  /** The order promised: base types, options, lists and arrays as in the standard library, with None below Some;
      components from left to right; constructors in the order of declaration. */
  function Documented(compare: (nat, int, int) -> int, env: Env, ty: Ty, a: Value, b: Value): int
    requires WfEnv(env) && WfTy(env, ty) && HasType(env, ty, a) && HasType(env, ty, b)
    decreases a, Level(ty)
  {
    match ty
    case TyUnit => 0
    case TyBase(t) => compare(t, a.n, b.n)
    case TyRef(t) => Documented(compare, env, t, a.contents, b.contents)
    case TyOption(t) =>
      if a.VSome? && b.VSome? then Documented(compare, env, t, a.v, b.v)
      else if a.VSome? then 1
      else if b.VSome? then -1
      else 0
    case TyList(t) => Lexicographic(compare, env, t, a.vs, b.vs)
    case TyArray(t) =>
      if |a.vs| < |b.vs| then -1 else if |a.vs| > |b.vs| then 1 else Lexicographic(compare, env, t, a.vs, b.vs)
    case TyTuple(ts) => LeftToRight(compare, env, ts, a.vs, b.vs)
    case TyNamed(n) =>
      assert WfDef(env, n);
      match env[n]
      case Alias(t) => Documented(compare, env, t, a, b)
      case Record(ts) => LeftToRight(compare, env, ts, a.vs, b.vs)
      case Sum(alts) =>
        var cs := Constructors(alts);
        var i, j := Place(cs, a.con), Place(cs, b.con);
        if i < j then -1 else if i > j then 1 else LeftToRight(compare, env, cs[i].1, a.args, b.args)
  }

  function Lexicographic(compare: (nat, int, int) -> int, env: Env, t: Ty, a: seq<Value>, b: seq<Value>): int
    requires WfEnv(env) && WfTy(env, t) && AllOf(env, t, a) && AllOf(env, t, b)
    decreases a
  {
    if a == [] && b == [] then 0
    else if a == [] then -1
    else if b == [] then 1
    else
      var head := Documented(compare, env, t, a[0], b[0]);
      if head == 0 then Lexicographic(compare, env, t, a[1..], b[1..]) else head
  }

  function LeftToRight(compare: (nat, int, int) -> int, env: Env, ts: seq<Ty>, a: seq<Value>, b: seq<Value>): int
    requires WfEnv(env) && WfTys(env, ts) && HaveTypes(env, ts, a) && HaveTypes(env, ts, b)
    decreases a
  {
    if ts == [] then 0
    else
      var head := Documented(compare, env, ts[0], a[0], b[0]);
      if head == 0 then LeftToRight(compare, env, ts[1..], a[1..], b[1..]) else head
  }

  // ----- where options decide -----

  /** The leftmost components that are not equal in the order are None and Some. */
  predicate OptionDecides(compare: (nat, int, int) -> int, env: Env, ty: Ty, a: Value, b: Value)
    requires WfEnv(env) && WfTy(env, ty) && HasType(env, ty, a) && HasType(env, ty, b)
    decreases a, Level(ty)
  {
    match ty
    case TyUnit => false
    case TyBase(_) => false
    case TyRef(t) => OptionDecides(compare, env, t, a.contents, b.contents)
    case TyOption(t) => if a.VSome? && b.VSome? then OptionDecides(compare, env, t, a.v, b.v) else a.VSome? || b.VSome?
    case TyList(t) => OptionDecidesElements(compare, env, t, a.vs, b.vs)
    case TyArray(t) => |a.vs| == |b.vs| && OptionDecidesElements(compare, env, t, a.vs, b.vs)
    case TyTuple(ts) => OptionDecidesChain(compare, env, ts, a.vs, b.vs)
    case TyNamed(n) =>
      assert WfDef(env, n);
      match env[n]
      case Alias(t) => OptionDecides(compare, env, t, a, b)
      case Record(ts) => OptionDecidesChain(compare, env, ts, a.vs, b.vs)
      case Sum(alts) =>
        var cs := Constructors(alts);
        a.con == b.con && OptionDecidesChain(compare, env, cs[Place(cs, a.con)].1, a.args, b.args)
  }

  predicate OptionDecidesElements(compare: (nat, int, int) -> int, env: Env, t: Ty, a: seq<Value>, b: seq<Value>)
    requires WfEnv(env) && WfTy(env, t) && AllOf(env, t, a) && AllOf(env, t, b)
    decreases a
  {
    a != [] && b != [] &&
    if Documented(compare, env, t, a[0], b[0]) == 0 then OptionDecidesElements(compare, env, t, a[1..], b[1..])
    else OptionDecides(compare, env, t, a[0], b[0])
  }

  predicate OptionDecidesChain(compare: (nat, int, int) -> int, env: Env, ts: seq<Ty>, a: seq<Value>, b: seq<Value>)
    requires WfEnv(env) && WfTys(env, ts) && HaveTypes(env, ts, a) && HaveTypes(env, ts, b)
    decreases a
  {
    ts != [] &&
    if Documented(compare, env, ts[0], a[0], b[0]) == 0 then OptionDecidesChain(compare, env, ts[1..], a[1..], b[1..])
    else OptionDecides(compare, env, ts[0], a[0], b[0])
  }

  // ----- the two orders -----

  /** A generated result against the documented one: its opposite where options decide, and else the same. */
  predicate Departs(generated: int, documented: int, byOption: bool) {
    && generated == (if byOption then -documented else documented)
    && (byOption ==> documented != 0)
  }

  /** Nothing is known about physical equality. */
  function Structural(compare: (nat, int, int) -> int): Prims { Prims(compare, (v, w) => false) }

  lemma {:induction false} StructuralDeparts(c: (nat, int, int) -> int, env: Env, ty: Ty, a: Value, b: Value)
    requires WfEnv(env) && WfTy(env, ty) && HasType(env, ty, a) && HasType(env, ty, b)
    ensures Departs(Cmp(Structural(c), env, ty, a, b), Documented(c, env, ty, a, b), OptionDecides(c, env, ty, a, b))
    decreases a, Level(ty)
  {
    hide CmpList, CmpElements, ChainIf, Lexicographic, LeftToRight, OptionDecidesElements, OptionDecidesChain;
    match ty
    case TyUnit =>
    case TyBase(t) =>
    case TyRef(t) => StructuralDeparts(c, env, t, a.contents, b.contents);
    case TyOption(t) => if a.VSome? && b.VSome? { StructuralDeparts(c, env, t, a.v, b.v); }
    case TyList(t) => ListDeparts(c, env, t, a.vs, b.vs);
    case TyArray(t) => if |a.vs| == |b.vs| { ElementsDepart(c, env, t, a.vs, b.vs); }
    case TyTuple(ts) => ChainDeparts(c, env, ts, a.vs, b.vs);
    case TyNamed(n) => NamedDeparts(c, env, n, a, b);
  }

  lemma {:induction false} NamedDeparts(c: (nat, int, int) -> int, env: Env, n: nat, a: Value, b: Value)
    requires WfEnv(env) && n < |env| && HasType(env, TyNamed(n), a) && HasType(env, TyNamed(n), b)
    ensures Departs(Cmp(Structural(c), env, TyNamed(n), a, b), Documented(c, env, TyNamed(n), a, b),
                    OptionDecides(c, env, TyNamed(n), a, b))
    decreases a, n + 1, 0
  {
    hide ChainIf, LeftToRight, OptionDecidesChain, HaveTypes;
    assert WfDef(env, n);
    match env[n]
    case Alias(t) => StructuralDeparts(c, env, t, a, b);
    case Record(ts) => ChainDeparts(c, env, ts, a.vs, b.vs);
    case Sum(alts) =>
      SumIsOrdered(alts, a.con, b.con);
      var cs := Constructors(alts);
      if a.con == b.con { ChainDeparts(c, env, cs[Place(cs, a.con)].1, a.args, b.args); }
  }

  lemma {:induction false} ListDeparts(c: (nat, int, int) -> int, env: Env, t: Ty, a: seq<Value>, b: seq<Value>)
    requires WfEnv(env) && WfTy(env, t) && AllOf(env, t, a) && AllOf(env, t, b)
    ensures Departs(CmpList(Structural(c), env, t, a, b), Lexicographic(c, env, t, a, b),
                    OptionDecidesElements(c, env, t, a, b))
    decreases a
  {
    hide WfEnv, WfTy, HasType, Cmp, Documented, OptionDecides;
    if a != [] && b != [] {
      StructuralDeparts(c, env, t, a[0], b[0]);
      ListDeparts(c, env, t, a[1..], b[1..]);
    }
  }

  lemma {:induction false} ElementsDepart(c: (nat, int, int) -> int, env: Env, t: Ty, a: seq<Value>, b: seq<Value>)
    requires WfEnv(env) && WfTy(env, t) && |a| == |b| && AllOf(env, t, a) && AllOf(env, t, b)
    ensures Departs(CmpElements(Structural(c), env, t, a, b), Lexicographic(c, env, t, a, b),
                    OptionDecidesElements(c, env, t, a, b))
    decreases a
  {
    hide WfEnv, WfTy, HasType, Cmp, Documented, OptionDecides;
    if a != [] {
      StructuralDeparts(c, env, t, a[0], b[0]);
      ElementsDepart(c, env, t, a[1..], b[1..]);
    }
  }

  lemma {:induction false} ChainDeparts(c: (nat, int, int) -> int, env: Env, ts: seq<Ty>, a: seq<Value>, b: seq<Value>)
    requires WfEnv(env) && WfTys(env, ts) && HaveTypes(env, ts, a) && HaveTypes(env, ts, b)
    ensures Departs(ChainIf(Structural(c), env, ts, a, b), LeftToRight(c, env, ts, a, b),
                    OptionDecidesChain(c, env, ts, a, b))
    decreases a
  {
    hide WfEnv, WfTy, HasType, Cmp, Documented, OptionDecides;
    if ts != [] {
      StructuralDeparts(c, env, ts[0], a[0], b[0]);
      ChainDeparts(c, env, ts[1..], a[1..], b[1..]);
    }
  }

  /** The generated order is the documented one exactly where no None meets a Some in the leftmost place that is not
      equal; there it is the reverse. */
  lemma {:induction false} DocumentedIff(p: Prims, env: Env, ty: Ty, a: Value, b: Value)
    requires Good(p) && WfEnv(env) && WfTy(env, ty) && HasType(env, ty, a) && HasType(env, ty, b)
    ensures Sign(Cmp(p, env, ty, a, b)) == Sign(Documented(p.compare, env, ty, a, b)) <==>
            !OptionDecides(p.compare, env, ty, a, b)
    ensures Sign(Cmp(p, env, ty, a, b)) == -Sign(Documented(p.compare, env, ty, a, b)) <==>
            OptionDecides(p.compare, env, ty, a, b) || Cmp(p, env, ty, a, b) == 0
    ensures var documented := Documented(p.compare, env, ty, a, b);
            Cmp(p, env, ty, a, b) == if OptionDecides(p.compare, env, ty, a, b) then -documented else documented
  {
    assert Good(Structural(p.compare));
    hide WfEnv, WfTy, HasType, Cmp, Documented, OptionDecides, Good;
    ShortcutsInvisible(p, Structural(p.compare), env, ty, a, b);
    StructuralDeparts(p.compare, env, ty, a, b);
  }

  /** At an option type: if the orders agree on the contents, they agree exactly on two Nones and on two Somes. */
  lemma {:induction false} OptionsAgreeIff(p: Prims, env: Env, t: Ty, a: Value, b: Value)
    requires Good(p) && WfEnv(env) && WfTy(env, t) && HasType(env, TyOption(t), a) && HasType(env, TyOption(t), b)
    requires a.VSome? && b.VSome? ==> Sign(Cmp(p, env, t, a.v, b.v)) == Sign(Documented(p.compare, env, t, a.v, b.v))
    ensures Sign(Cmp(p, env, TyOption(t), a, b)) == Sign(Documented(p.compare, env, TyOption(t), a, b)) <==>
            a.VNone? == b.VNone?
  {
    DocumentedIff(p, env, TyOption(t), a, b);
    if a.VSome? && b.VSome? { DocumentedIff(p, env, t, a.v, b.v); }
  }

  /** The documentation puts None below every Some, the generated code above. */
  lemma {:induction false} NoneAndSome(p: Prims, env: Env, t: Ty, v: Value)
    requires WfEnv(env) && WfTy(env, t) && HasType(env, t, v)
    ensures HasType(env, TyOption(t), VNone) && HasType(env, TyOption(t), VSome(v))
    ensures Cmp(p, env, TyOption(t), VNone, VSome(v)) == 1 && Cmp(p, env, TyOption(t), VSome(v), VNone) == -1
    ensures Documented(p.compare, env, TyOption(t), VNone, VSome(v)) == -1
    ensures Documented(p.compare, env, TyOption(t), VSome(v), VNone) == 1
  {
    assert HasType(env, TyOption(t), VNone) && HasType(env, TyOption(t), VSome(v));
  }

  // ----- types without options -----

  /** No option occurs in the type, and it names only definitions in `names`. */
  predicate OptionFree(names: set<nat>, ty: Ty) {
    match ty
    case TyNamed(n) => n in names
    case TyOption(_) => false
    case TyRef(t) => OptionFree(names, t)
    case TyList(t) => OptionFree(names, t)
    case TyArray(t) => OptionFree(names, t)
    case TyTuple(ts) => AllOptionFree(names, ts)
    case _ => true
  }

  predicate AllOptionFree(names: set<nat>, ts: seq<Ty>) { forall i :: 0 <= i < |ts| ==> OptionFree(names, ts[i]) }

  predicate DefOptionFree(names: set<nat>, def: Def) {
    match def
    case Alias(t) => OptionFree(names, t)
    case Record(ts) => AllOptionFree(names, ts)
    case Sum(alts) => var cs := Constructors(alts); forall i :: 0 <= i < |cs| ==> AllOptionFree(names, cs[i].1)
  }

  /** The definitions in `names` have no options and name only each other. */
  predicate Closed(names: set<nat>, env: Env) {
    forall n: nat :: n in names && n < |env| ==> DefOptionFree(names, env[n])
  }

  lemma {:induction false} OptionNeverDecides(names: set<nat>, c: (nat, int, int) -> int, env: Env, ty: Ty, a: Value,
          b: Value)
    requires WfEnv(env) && WfTy(env, ty) && HasType(env, ty, a) && HasType(env, ty, b)
    requires Closed(names, env) && OptionFree(names, ty)
    ensures !OptionDecides(c, env, ty, a, b)
    decreases a, Level(ty)
  {
    hide OptionDecidesElements, OptionDecidesChain;
    match ty
    case TyRef(t) => OptionNeverDecides(names, c, env, t, a.contents, b.contents);
    case TyList(t) => NeverInElements(names, c, env, t, a.vs, b.vs);
    case TyArray(t) => NeverInElements(names, c, env, t, a.vs, b.vs);
    case TyTuple(ts) => NeverInChain(names, c, env, ts, a.vs, b.vs);
    case TyNamed(n) =>
      assert WfDef(env, n) && DefOptionFree(names, env[n]);
      match env[n] {
        case Alias(t) => OptionNeverDecides(names, c, env, t, a, b);
        case Record(ts) => NeverInChain(names, c, env, ts, a.vs, b.vs);
        case Sum(alts) =>
          var cs := Constructors(alts);
          if a.con == b.con { NeverInChain(names, c, env, cs[Place(cs, a.con)].1, a.args, b.args); }
      }
    case _ =>
  }

  lemma {:induction false} NeverInElements(names: set<nat>, c: (nat, int, int) -> int, env: Env, t: Ty,
                                           a: seq<Value>, b: seq<Value>)
    requires WfEnv(env) && WfTy(env, t) && AllOf(env, t, a) && AllOf(env, t, b)
    requires Closed(names, env) && OptionFree(names, t)
    ensures !OptionDecidesElements(c, env, t, a, b)
    decreases a
  {
    hide WfEnv, WfTy, HasType, Documented, OptionDecides, Closed, OptionFree;
    if a != [] && b != [] {
      OptionNeverDecides(names, c, env, t, a[0], b[0]);
      NeverInElements(names, c, env, t, a[1..], b[1..]);
    }
  }

  lemma {:induction false} NeverInChain(names: set<nat>, c: (nat, int, int) -> int, env: Env, ts: seq<Ty>,
                                        a: seq<Value>, b: seq<Value>)
    requires WfEnv(env) && WfTys(env, ts) && HaveTypes(env, ts, a) && HaveTypes(env, ts, b)
    requires Closed(names, env) && AllOptionFree(names, ts)
    ensures !OptionDecidesChain(c, env, ts, a, b)
    decreases a
  {
    hide WfEnv, WfTy, HasType, Documented, OptionDecides, Closed, OptionFree;
    if ts != [] {
      OptionNeverDecides(names, c, env, ts[0], a[0], b[0]);
      NeverInChain(names, c, env, ts[1..], a[1..], b[1..]);
    }
  }

  /** Wherever no option occurs in a type and what it names, the generated order is the documented one. */
  lemma {:induction false} DocumentedWithoutOptions(names: set<nat>, p: Prims, env: Env, ty: Ty, a: Value, b: Value)
    requires Good(p) && WfEnv(env) && WfTy(env, ty) && HasType(env, ty, a) && HasType(env, ty, b)
    requires Closed(names, env) && OptionFree(names, ty)
    ensures Cmp(p, env, ty, a, b) == Documented(p.compare, env, ty, a, b)
  {
    hide *;
    OptionNeverDecides(names, p.compare, env, ty, a, b);
    DocumentedIff(p, env, ty, a, b);
  }

  const A_OR_B: Alts := Bar(Con(0, []), Con(1, [TyBase(0)]))

  lemma TwoPlaces()
    ensures Constructors(A_OR_B) == [(0, []), (1, [TyBase(0)])]
    ensures Place(Constructors(A_OR_B), 0) == 0 && Place(Constructors(A_OR_B), 1) == 1
  {
    assert Constructors(A_OR_B)[1..] == [(1, [TyBase(0)])];
  }

  lemma InstanceIsTyped(n: int)
    ensures var env: Env := [Sum(A_OR_B)];
            && WfEnv(env) && Closed({0}, env) && OptionFree({0}, TyList(TyNamed(0)))
            && HasType(env, TyNamed(0), VCon(0, [])) && HasType(env, TyNamed(0), VCon(1, [VBase(n)]))
            && HaveTypes(env, [TyBase(0)], [VBase(n)])
  {
    TwoPlaces();
    var env: Env := [Sum(A_OR_B)];
    assert WfDef(env, 0);
    assert HaveTypes(env, [], []);
    assert [TyBase(0)][1..] == [] && [VBase(n)][1..] == [];
    assert HaveTypes(env, [TyBase(0)], [VBase(n)]);
  }

  lemma OneArgument(compare: (nat, int, int) -> int, env: Env, m: int, n: int)
    requires WfEnv(env) && HaveTypes(env, [TyBase(0)], [VBase(m)]) && HaveTypes(env, [TyBase(0)], [VBase(n)])
    ensures LeftToRight(compare, env, [TyBase(0)], [VBase(m)], [VBase(n)]) == compare(0, m, n)
  {
    assert [VBase(m)][1..] == [] && [VBase(n)][1..] == [] && [TyBase(0)][1..] == [];
    assert LeftToRight(compare, env, [], [], []) == 0;
  }

  /** An instance, `type t = A | B of int`: A is below B, two Bs are compared by their arguments, and a list is above
      the empty list. */
  lemma {:induction false} Instance(p: Prims, m: int, n: int)
    requires Good(p)
    ensures var env: Env := [Sum(A_OR_B)];
            var t, a, b, c := TyNamed(0), VCon(0, []), VCon(1, [VBase(m)]), VCon(1, [VBase(n)]);
            && WfEnv(env) && Closed({0}, env) && OptionFree({0}, TyList(t))
            && HasType(env, t, a) && HasType(env, t, b) && HasType(env, t, c)
            && Cmp(p, env, t, a, b) == -1 && Cmp(p, env, t, b, a) == 1 && Cmp(p, env, t, b, c) == p.compare(0, m, n)
            && HasType(env, TyList(t), VList([a])) && HasType(env, TyList(t), VList([]))
            && Cmp(p, env, TyList(t), VList([]), VList([a])) == -1
            && Cmp(p, env, TyList(t), VList([a]), VList([])) == 1
  {
    var env: Env := [Sum(A_OR_B)];
    var t, a, b, c := TyNamed(0), VCon(0, []), VCon(1, [VBase(m)]), VCon(1, [VBase(n)]);
    InstanceIsTyped(m);
    InstanceIsTyped(n);
    TwoPlaces();
    DocumentedWithoutOptions({0}, p, env, t, a, b);
    DocumentedWithoutOptions({0}, p, env, t, b, a);
    DocumentedWithoutOptions({0}, p, env, t, b, c);
    OneArgument(p.compare, env, m, n);
    assert [a][1..] == [] && AllOf(env, t, []);
    hide OptionDecides, LeftToRight;
  }
}
