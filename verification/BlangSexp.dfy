/** The s-expression syntax of blang.ml. */
module BlangSexp {
  import opened Blang
  import opened Options
  import opened Sequences

  // A printer that flattens conjunctions and disjunctions, a parser that nests them to the left, and what is left of a
  // term after both.

  datatype Sexp = Atom(name: string) | List(items: seq<Sexp>)

  // ----- keywords -----

  /** `Char.lowercase` of the standard library of the time: Latin-1. */
  function LowerChar(c: char): char {
    if 'A' <= c <= 'Z' || (0xc0 <= c as int <= 0xde && c as int != 0xd7) then (c as int + 32) as char else c
  }

  function Lower(s: string): (r: string)
    ensures |r| == |s|
    ensures (forall i :: 0 <= i < |s| ==> LowerChar(s[i]) == s[i]) ==> r == s
  {
    seq(|s|, i requires 0 <= i < |s| => LowerChar(s[i]))
  }

  /** An s-expression that the parser takes for itself. */
  predicate LooksLikeBlang(x: Sexp) {
    match x
    case Atom(kw) => Lower(kw) == "true" || Lower(kw) == "false"
    case List(xs) => xs != [] && xs[0].Atom? && Lower(xs[0].name) in ["and", "or", "not", "if"]
  }

  lemma Keywords()
    ensures Lower("true") == "true" && Lower("false") == "false" && Lower("and") == "and" && Lower("or") == "or"
    ensures Lower("not") == "not" && Lower("if") == "if"
  {}

  // ----- printing -----

  lemma {:induction false} ConjunctsSmaller<V>(t: Term<V>)
    ensures TotalSize(Conjuncts(t)) <= Size(t)
    ensures t.And? ==> TotalSize(Conjuncts(t)) < Size(t)
  {
    if t.And? {
      ConjunctsSmaller(t.left);
      ConjunctsSmaller(t.right);
      TotalSizeAppend(Conjuncts(t.left), Conjuncts(t.right));
    } else if !t.True? {
      assert [t][1..] == [];
    }
  }

  lemma {:induction false} DisjunctsSmaller<V>(t: Term<V>)
    ensures TotalSize(Disjuncts(t)) <= Size(t)
    ensures t.Or? ==> TotalSize(Disjuncts(t)) < Size(t)
  {
    if t.Or? {
      DisjunctsSmaller(t.left);
      DisjunctsSmaller(t.right);
      TotalSizeAppend(Disjuncts(t.left), Disjuncts(t.right));
    } else if !t.False? {
      assert [t][1..] == [];
    }
  }

  lemma {:induction false} TotalSizeAppend<V>(s: seq<Term<V>>, u: seq<Term<V>>)
    ensures TotalSize(s + u) == TotalSize(s) + TotalSize(u)
  {
    if s == [] {
      assert s + u == u;
    } else {
      assert (s + u)[1..] == s[1..] + u;
      TotalSizeAppend(s[1..], u);
    }
  }

  /** `sexp_of_t`. */
  function Print<V>(show: V -> Sexp, t: Term<V>): Sexp
    decreases Size(t), 0
  {
    match t
    case Base(v) => show(v)
    case True => Atom("true")
    case False => Atom("false")
    case Not(a) => List([Atom("not"), Print(show, a)])
    case If(a, b, c) => List([Atom("if"), Print(show, a), Print(show, b), Print(show, c)])
    case And(_, _) =>
      GatherConjunctsFlattens(t);
      ConjunctsSmaller(t);
      List([Atom("and")] + PrintAll(show, GatherConjuncts(t)))
    case Or(_, _) =>
      GatherDisjunctsFlattens(t);
      DisjunctsSmaller(t);
      List([Atom("or")] + PrintAll(show, GatherDisjuncts(t)))
  }

  function PrintAll<V>(show: V -> Sexp, ts: seq<Term<V>>): (r: seq<Sexp>)
    ensures |r| == |ts|
    decreases TotalSize(ts), 1 + |ts|
  {
    if ts == [] then [] else [Print(show, ts[0])] + PrintAll(show, ts[1..])
  }

  /** What is printed: keywords in lower case, and all conjuncts or disjuncts of a nest in one list, in order. */
  lemma {:induction false} PrintedForms<V>(show: V -> Sexp, t: Term<V>, a: Term<V>, b: Term<V>, c: Term<V>)
    ensures Print(show, True) == Atom("true") && Print(show, False) == Atom("false")
    ensures Print(show, Not(a)) == List([Atom("not"), Print(show, a)])
    ensures Print(show, If(a, b, c)) == List([Atom("if"), Print(show, a), Print(show, b), Print(show, c)])
    ensures t.And? ==> Print(show, t) == List([Atom("and")] + PrintAll(show, Conjuncts(t)))
    ensures t.Or? ==> Print(show, t) == List([Atom("or")] + PrintAll(show, Disjuncts(t)))
  {
    hide Conjuncts, Disjuncts, PrintAll, GatherConjuncts, GatherDisjuncts;
    GatherConjunctsFlattens(t);
    GatherDisjunctsFlattens(t);
  }

  lemma {:induction false} PrintAllEach<V>(show: V -> Sexp, ts: seq<Term<V>>)
    ensures forall i :: 0 <= i < |ts| ==> PrintAll(show, ts)[i] == Print(show, ts[i])
  {
    hide Print;
    if ts != [] { PrintAllEach(show, ts[1..]); }
  }

  // ----- parsing -----

  /** `t_of_sexp`; None is the conversion error. */
  function Parse<V>(read: Sexp -> Option<V>, x: Sexp): Option<Term<V>>
    decreases x
  {
    match x
    case Atom(kw) =>
      if Lower(kw) == "true" then Some(True)
      else if Lower(kw) == "false" then Some(False)
      else ParseBase(read, x)
    case List(xs) =>
      if xs == [] || !xs[0].Atom? then ParseBase(read, x) else
        var kw, args := Lower(xs[0].name), xs[1..];
        if kw == "and" then
          (match ParseAll(read, args) case Some(ts) => Some(AndAll(ts)) case None => None)
        else if kw == "or" then
          (match ParseAll(read, args) case Some(ts) => Some(OrAll(ts)) case None => None)
        else if kw == "not" then
          if |args| != 1 then None else
            (match Parse(read, args[0]) case Some(a) => Some(MkNot(a)) case None => None)
        else if kw == "if" then
          if |args| != 3 then None else
            (match (Parse(read, args[0]), Parse(read, args[1]), Parse(read, args[2]))
             case (Some(a), Some(b), Some(c)) => Some(MkIf(a, b, c))
             case _ => None)
        else ParseBase(read, x)
  }

  function ParseBase<V>(read: Sexp -> Option<V>, x: Sexp): Option<Term<V>> {
    match read(x) case Some(v) => Some(Base(v)) case None => None
  }

  function ParseAll<V>(read: Sexp -> Option<V>, xs: seq<Sexp>): Option<seq<Term<V>>>
    decreases xs
  {
    if xs == [] then Some([]) else
      match (Parse(read, xs[0]), ParseAll(read, xs[1..]))
      case (Some(t), Some(ts)) => Some([t] + ts)
      case _ => None
  }

  lemma LowerTwice(s: string)
    ensures Lower(Lower(s)) == Lower(s)
    ensures Lower("AND") == "and" && Lower("Or") == "or" && Lower("nOT") == "not" && Lower("AZaz@[") == "azaz@["
    ensures Lower("\U{c0}\U{de}\U{d7}\U{df}") == "\U{e0}\U{fe}\U{d7}\U{df}"
  {}

  /** The parser takes keywords in any mixture of cases. */
  lemma {:induction false} KeywordsInAnyCase<V>(read: Sexp -> Option<V>, kw: string, args: seq<Sexp>)
    ensures Lower(kw) in ["and", "or", "not", "if"] ==>
              Parse(read, List([Atom(kw)] + args)) == Parse(read, List([Atom(Lower(kw))] + args))
    ensures Lower(kw) in ["true", "false"] ==> Parse(read, Atom(kw)) == Parse(read, Atom(Lower(kw)))
  {
    LowerTwice(kw);
    hide Lower, ParseAll, ParseBase;
    assert ([Atom(kw)] + args)[1..] == args == ([Atom(Lower(kw))] + args)[1..];
  }

  predicate AllInvariant<V>(ts: seq<Term<V>>) { forall i :: 0 <= i < |ts| ==> Invariant(ts[i]) }

  lemma {:induction false} LoopsKeepInvariant<V>(acc: Term<V>, ts: seq<Term<V>>)
    requires Invariant(acc) && AllInvariant(ts)
    ensures Invariant(AndLoop(acc, ts)) && Invariant(OrLoop(acc, ts))
    decreases |ts|
  {
    if ts != [] {
      ConstructorsKeepInvariant(acc, ts[0], acc);
      LoopsKeepInvariant(AndAlso(acc, ts[0]), ts[1..]);
      LoopsKeepInvariant(OrElse(acc, ts[0]), ts[1..]);
    }
  }

  /** Whatever is parsed, constants only come out on top. */
  lemma {:induction false} ParseKeepsInvariant<V>(read: Sexp -> Option<V>, x: Sexp)
    ensures Parse(read, x).Some? ==> Invariant(Parse(read, x).value)
    decreases x
  {
    hide Invariant, MkNot, MkIf, AndLoop, OrLoop, Lower, ParseBase;
    LeavesAreInvariant(read, x);
    if x.List? && x.items != [] && Parse(read, x).Some? {
      var args := x.items[1..];
      ParseAllKeepsInvariant(read, args);
      if ParseAll(read, args).Some? {
        LoopsKeepInvariant(True, ParseAll(read, args).value);
        LoopsKeepInvariant(False, ParseAll(read, args).value);
      }
      if |args| == 1 {
        ParseKeepsInvariant(read, args[0]);
        if Parse(read, args[0]).Some? { ConstructorsKeepInvariant(Parse(read, args[0]).value, True, True); }
      }
      if |args| == 3 {
        ParseKeepsInvariant(read, args[0]); ParseKeepsInvariant(read, args[1]); ParseKeepsInvariant(read, args[2]);
        if Parse(read, args[0]).Some? && Parse(read, args[1]).Some? && Parse(read, args[2]).Some? {
          ConstructorsKeepInvariant(Parse(read, args[0]).value, Parse(read, args[1]).value, Parse(read, args[2]).value);
        }
      }
    }
  }

  lemma LeavesAreInvariant<V>(read: Sexp -> Option<V>, x: Sexp)
    ensures Invariant(Term<V>.True) && Invariant(Term<V>.False)
    ensures ParseBase(read, x).Some? ==> Invariant(ParseBase(read, x).value)
  {}

  lemma {:induction false} ParseAllKeepsInvariant<V>(read: Sexp -> Option<V>, xs: seq<Sexp>)
    ensures ParseAll(read, xs).Some? ==> AllInvariant(ParseAll(read, xs).value)
    decreases xs
  {
    hide Invariant, Parse;
    if xs != [] {
      ParseKeepsInvariant(read, xs[0]);
      ParseAllKeepsInvariant(read, xs[1..]);
    }
  }

  // ----- the left-nested normal form -----

  /** `x` and all conjuncts of `y`, nested to the left. */
  function GraftAnd<V>(x: Term<V>, y: Term<V>): Term<V> {
    if y.And? then And(GraftAnd(x, y.left), y.right) else And(x, y)
  }

  function GraftOr<V>(x: Term<V>, y: Term<V>): Term<V> {
    if y.Or? then Or(GraftOr(x, y.left), y.right) else Or(x, y)
  }

  function Norm<V>(t: Term<V>): (n: Term<V>)
    ensures t.And? <==> n.And?
    ensures t.Or? <==> n.Or?
    ensures t.True? <==> n.True?
    ensures t.False? <==> n.False?
  {
    match t
    case And(a, b) => GraftAnd(Norm(a), Norm(b))
    case Or(a, b) => GraftOr(Norm(a), Norm(b))
    case Not(a) => Not(Norm(a))
    case If(a, b, c) => If(Norm(a), Norm(b), Norm(c))
    case _ => t
  }

  function NormAll<V>(ts: seq<Term<V>>): (r: seq<Term<V>>)
    ensures |r| == |ts|
    ensures forall i :: 0 <= i < |ts| ==> r[i] == Norm(ts[i])
  {
    if ts == [] then [] else [Norm(ts[0])] + NormAll(ts[1..])
  }

  /** No conjunction is the right side of a conjunction, and no disjunction that of a disjunction. */
  predicate LeftNested<V>(t: Term<V>) {
    match t
    case And(a, b) => LeftNested(a) && LeftNested(b) && !b.And?
    case Or(a, b) => LeftNested(a) && LeftNested(b) && !b.Or?
    case Not(a) => LeftNested(a)
    case If(a, b, c) => LeftNested(a) && LeftNested(b) && LeftNested(c)
    case _ => true
  }

  lemma {:induction false} GraftLeftNested<V>(x: Term<V>, y: Term<V>)
    requires LeftNested(x) && LeftNested(y)
    ensures LeftNested(GraftAnd(x, y)) && LeftNested(GraftOr(x, y))
  {
    if y.And? { GraftLeftNested(x, y.left); }
    if y.Or? { GraftLeftNested(x, y.left); }
  }

  lemma {:induction false} NormLeftNested<V>(t: Term<V>)
    ensures LeftNested(Norm(t))
  {
    match t
    case And(a, b) => NormLeftNested(a); NormLeftNested(b); GraftLeftNested(Norm(a), Norm(b));
    case Or(a, b) => NormLeftNested(a); NormLeftNested(b); GraftLeftNested(Norm(a), Norm(b));
    case Not(a) => NormLeftNested(a);
    case If(a, b, c) => NormLeftNested(a); NormLeftNested(b); NormLeftNested(c);
    case _ =>
  }

  lemma {:induction false} LeftNestedIsNormal<V>(t: Term<V>)
    requires LeftNested(t)
    ensures Norm(t) == t
  {
    match t
    case And(a, b) => LeftNestedIsNormal(a); LeftNestedIsNormal(b);
    case Or(a, b) => LeftNestedIsNormal(a); LeftNestedIsNormal(b);
    case Not(a) => LeftNestedIsNormal(a);
    case If(a, b, c) => LeftNestedIsNormal(a); LeftNestedIsNormal(b); LeftNestedIsNormal(c);
    case _ =>
  }

  lemma {:induction false} GraftPreserves<V>(x: Term<V>, y: Term<V>, f: V -> bool)
    ensures Eval(GraftAnd(x, y), f) == (Eval(x, f) && Eval(y, f)) && Leaves(GraftAnd(x, y)) == Leaves(x) + Leaves(y)
    ensures Eval(GraftOr(x, y), f) == (Eval(x, f) || Eval(y, f)) && Leaves(GraftOr(x, y)) == Leaves(x) + Leaves(y)
  {
    if y.And? || y.Or? {
      GraftPreserves(x, y.left, f);
      assert Leaves(x) + Leaves(y.left) + Leaves(y.right) == Leaves(x) + (Leaves(y.left) + Leaves(y.right));
    }
  }

  /** Normalising changes neither the value nor the base values and their order. */
  lemma {:induction false} NormPreserves<V>(t: Term<V>, f: V -> bool)
    ensures Eval(Norm(t), f) == Eval(t, f) && Leaves(Norm(t)) == Leaves(t)
  {
    match t
    case And(a, b) => NormPreserves(a, f); NormPreserves(b, f); GraftPreserves(Norm(a), Norm(b), f);
    case Or(a, b) => NormPreserves(a, f); NormPreserves(b, f); GraftPreserves(Norm(a), Norm(b), f);
    case Not(a) => NormPreserves(a, f);
    case If(a, b, c) => NormPreserves(a, f); NormPreserves(b, f); NormPreserves(c, f);
    case _ =>
  }

  // ----- flattening and nesting again -----

  lemma {:induction false} GraftAssociative<V>(x: Term<V>, y: Term<V>, z: Term<V>)
    ensures GraftAnd(GraftAnd(x, y), z) == GraftAnd(x, GraftAnd(y, z))
    ensures GraftOr(GraftOr(x, y), z) == GraftOr(x, GraftOr(y, z))
  {
    if z.And? || z.Or? { GraftAssociative(x, y, z.left); }
  }

  lemma NormAllAppend<V>(s: seq<Term<V>>, u: seq<Term<V>>)
    ensures NormAll(s + u) == NormAll(s) + NormAll(u)
  {}

  lemma {:induction false} AndLoopAppend<V>(acc: Term<V>, s: seq<Term<V>>, u: seq<Term<V>>)
    requires forall i :: 0 <= i < |s| ==> !s[i].False?
    ensures AndLoop(acc, s + u) == AndLoop(AndLoop(acc, s), u)
    decreases |s|
  {
    if s == [] {
      assert s + u == u;
    } else {
      assert (s + u)[1..] == s[1..] + u;
      AndLoopAppend(AndAlso(acc, s[0]), s[1..], u);
    }
  }

  lemma {:induction false} OrLoopAppend<V>(acc: Term<V>, s: seq<Term<V>>, u: seq<Term<V>>)
    requires forall i :: 0 <= i < |s| ==> !s[i].True?
    ensures OrLoop(acc, s + u) == OrLoop(OrLoop(acc, s), u)
    decreases |s|
  {
    if s == [] {
      assert s + u == u;
    } else {
      assert (s + u)[1..] == s[1..] + u;
      OrLoopAppend(OrElse(acc, s[0]), s[1..], u);
    }
  }

  lemma {:induction false} ConjunctsNoConstants<V>(t: Term<V>)
    requires NoConstants(t)
    ensures forall i :: 0 <= i < |Conjuncts(t)| ==> NoConstants(Conjuncts(t)[i])
  {
    if t.And? { ConjunctsNoConstants(t.left); ConjunctsNoConstants(t.right); }
  }

  lemma {:induction false} DisjunctsNoConstants<V>(t: Term<V>)
    requires NoConstants(t)
    ensures forall i :: 0 <= i < |Disjuncts(t)| ==> NoConstants(Disjuncts(t)[i])
  {
    if t.Or? { DisjunctsNoConstants(t.left); DisjunctsNoConstants(t.right); }
  }

  /** Conjoining the normal forms of all conjuncts one by one grafts the normal form of the whole. */
  lemma {:induction false} AndOfConjuncts<V>(acc: Term<V>, t: Term<V>)
    requires NoConstants(t) && !acc.False?
    ensures AndLoop(acc, NormAll(Conjuncts(t))) == if acc.True? then Norm(t) else GraftAnd(acc, Norm(t))
    decreases t
  {
    if t.And? {
      var s, u := NormAll(Conjuncts(t.left)), NormAll(Conjuncts(t.right));
      NormAllAppend(Conjuncts(t.left), Conjuncts(t.right));
      ConjunctsNoConstants(t.left);
      assert forall i :: 0 <= i < |s| ==> !s[i].False?;
      AndLoopAppend(acc, s, u);
      AndOfConjuncts(acc, t.left);
      AndOfConjuncts(AndLoop(acc, s), t.right);
      if !acc.True? { GraftAssociative(acc, Norm(t.left), Norm(t.right)); }
    } else {
      assert NormAll([t]) == [Norm(t)] && [Norm(t)][1..] == [];
    }
  }

  lemma {:induction false} OrOfDisjuncts<V>(acc: Term<V>, t: Term<V>)
    requires NoConstants(t) && !acc.True?
    ensures OrLoop(acc, NormAll(Disjuncts(t))) == if acc.False? then Norm(t) else GraftOr(acc, Norm(t))
    decreases t
  {
    if t.Or? {
      var s, u := NormAll(Disjuncts(t.left)), NormAll(Disjuncts(t.right));
      NormAllAppend(Disjuncts(t.left), Disjuncts(t.right));
      DisjunctsNoConstants(t.left);
      assert forall i :: 0 <= i < |s| ==> !s[i].True?;
      OrLoopAppend(acc, s, u);
      OrOfDisjuncts(acc, t.left);
      OrOfDisjuncts(OrLoop(acc, s), t.right);
      if !acc.False? { GraftAssociative(acc, Norm(t.left), Norm(t.right)); }
    } else {
      assert NormAll([t]) == [Norm(t)] && [Norm(t)][1..] == [];
    }
  }

  // ----- printing and parsing -----

  /** Base s-expressions that can be read back and that the parser leaves alone. */
  ghost predicate GoodBase<V(!new)>(show: V -> Sexp, read: Sexp -> Option<V>) {
    forall v :: read(show(v)) == Some(v) && !LooksLikeBlang(show(v))
  }

  /** Parsing what was printed yields the left-nested normal form. */
  lemma {:induction false} ParseOfPrint<V(!new)>(show: V -> Sexp, read: Sexp -> Option<V>, t: Term<V>)
    requires GoodBase(show, read) && Invariant(t)
    ensures Parse(read, Print(show, t)) == Some(Norm(t))
    decreases Size(t), 0
  {
    hide Lower;
    Keywords();
    match t
    case Base(v) =>
      assert !LooksLikeBlang(show(v));
    case Not(a) => ParseOfPrint(show, read, a); ParseNot(read, Print(show, a));
    case If(a, b, c) =>
      ParseOfPrint(show, read, a); ParseOfPrint(show, read, b); ParseOfPrint(show, read, c);
      ParseIf(read, Print(show, a), Print(show, b), Print(show, c));
    case And(_, _) =>
      GatherConjunctsFlattens(t);
      ConjunctsSmaller(t);
      ConjunctsNoConstants(t);
      ParseOfPrintAll(show, read, Conjuncts(t));
      AndOfConjuncts(True, t);
      ParseList(read, "and", PrintAll(show, Conjuncts(t)));
    case Or(_, _) =>
      GatherDisjunctsFlattens(t);
      DisjunctsSmaller(t);
      DisjunctsNoConstants(t);
      ParseOfPrintAll(show, read, Disjuncts(t));
      OrOfDisjuncts(False, t);
      ParseList(read, "or", PrintAll(show, Disjuncts(t)));
    case _ =>
  }

  lemma {:induction false} ParseNot<V>(read: Sexp -> Option<V>, x: Sexp)
    ensures var a := Parse(read, x);
            Parse(read, List([Atom("not"), x])) == if a.Some? then Some(MkNot(a.value)) else None
  {
    hide Lower;
    Keywords();
    assert [Atom("not"), x][1..] == [x];
  }

  lemma {:induction false} ParseIf<V>(read: Sexp -> Option<V>, x: Sexp, y: Sexp, z: Sexp)
    requires Parse(read, x).Some? && Parse(read, y).Some? && Parse(read, z).Some?
    ensures Parse(read, List([Atom("if"), x, y, z])) ==
            Some(MkIf(Parse(read, x).value, Parse(read, y).value, Parse(read, z).value))
  {
    hide Lower;
    Keywords();
    assert [Atom("if"), x, y, z][1..] == [x, y, z];
  }

  lemma {:induction false} ParseList<V>(read: Sexp -> Option<V>, kw: string, xs: seq<Sexp>)
    requires (kw == "and" || kw == "or") && ParseAll(read, xs).Some?
    ensures Parse(read, List([Atom(kw)] + xs)) ==
            Some(if kw == "and" then AndAll(ParseAll(read, xs).value) else OrAll(ParseAll(read, xs).value))
  {
    hide Lower;
    Keywords();
    assert ([Atom(kw)] + xs)[1..] == xs;
  }

  lemma {:induction false} ParseOfPrintAll<V(!new)>(show: V -> Sexp, read: Sexp -> Option<V>, ts: seq<Term<V>>)
    requires GoodBase(show, read) && forall i :: 0 <= i < |ts| ==> NoConstants(ts[i])
    ensures ParseAll(read, PrintAll(show, ts)) == Some(NormAll(ts))
    decreases TotalSize(ts), 1 + |ts|
  {
    hide Parse, Print, Norm;
    if ts != [] {
      ParseOfPrint(show, read, ts[0]);
      ParseOfPrintAll(show, read, ts[1..]);
      assert ([Print(show, ts[0])] + PrintAll(show, ts[1..]))[1..] == PrintAll(show, ts[1..]);
    }
  }

  lemma {:induction false} ConjunctsOfNorm<V>(t: Term<V>)
    ensures Conjuncts(Norm(t)) == NormAll(Conjuncts(t)) && Disjuncts(Norm(t)) == NormAll(Disjuncts(t))
  {
    match t
    case And(a, b) =>
      ConjunctsOfNorm(a); ConjunctsOfNorm(b);
      ConjunctsOfGraft(Norm(a), Norm(b));
      NormAllAppend(Conjuncts(a), Conjuncts(b));
    case Or(a, b) =>
      ConjunctsOfNorm(a); ConjunctsOfNorm(b);
      ConjunctsOfGraft(Norm(a), Norm(b));
      NormAllAppend(Disjuncts(a), Disjuncts(b));
    case _ =>
  }

  lemma {:induction false} ConjunctsOfGraft<V>(x: Term<V>, y: Term<V>)
    ensures Conjuncts(GraftAnd(x, y)) == Conjuncts(x) + Conjuncts(y)
    ensures Disjuncts(GraftOr(x, y)) == Disjuncts(x) + Disjuncts(y)
  {
    ConjunctsOfGraftAnd(x, y);
    DisjunctsOfGraftOr(x, y);
  }

  lemma {:induction false} ConjunctsOfGraftAnd<V>(x: Term<V>, y: Term<V>)
    ensures Conjuncts(GraftAnd(x, y)) == Conjuncts(x) + Conjuncts(y)
  {
    if y.And? {
      var g := GraftAnd(x, y.left);
      ConjunctsOfPair(g, y.right);
      ConjunctsOfPair(y.left, y.right);
      assert GraftAnd(x, y) == And(g, y.right) && y == And(y.left, y.right);
      hide Conjuncts, GraftAnd;
      ConjunctsOfGraftAnd(x, y.left);
      Assoc(Conjuncts(x), Conjuncts(y.left), Conjuncts(y.right));
    } else {
      ConjunctsOfPair(x, y);
      hide Conjuncts;
    }
  }

  lemma ConjunctsOfPair<V>(a: Term<V>, b: Term<V>)
    ensures Conjuncts(And(a, b)) == Conjuncts(a) + Conjuncts(b)
  {}

  lemma {:induction false} DisjunctsOfGraftOr<V>(x: Term<V>, y: Term<V>)
    ensures Disjuncts(GraftOr(x, y)) == Disjuncts(x) + Disjuncts(y)
  {
    if y.Or? {
      var g := GraftOr(x, y.left);
      DisjunctsOfPair(g, y.right);
      DisjunctsOfPair(y.left, y.right);
      assert GraftOr(x, y) == Or(g, y.right) && y == Or(y.left, y.right);
      hide Disjuncts, GraftOr;
      DisjunctsOfGraftOr(x, y.left);
      Assoc(Disjuncts(x), Disjuncts(y.left), Disjuncts(y.right));
    } else {
      DisjunctsOfPair(x, y);
      hide Disjuncts;
    }
  }

  lemma DisjunctsOfPair<V>(a: Term<V>, b: Term<V>)
    ensures Disjuncts(Or(a, b)) == Disjuncts(a) + Disjuncts(b)
  {}

  lemma {:induction false} PrintOfNorm<V>(show: V -> Sexp, t: Term<V>)
    ensures Print(show, Norm(t)) == Print(show, t)
    decreases Size(t), 0
  {
    match t
    case Not(a) => PrintOfNorm(show, a);
    case If(a, b, c) => PrintOfNorm(show, a); PrintOfNorm(show, b); PrintOfNorm(show, c);
    case And(_, _) =>
      GatherConjunctsFlattens(t);
      GatherConjunctsFlattens(Norm(t));
      ConjunctsOfNorm(t);
      ConjunctsSmaller(t);
      PrintAllOfNorm(show, Conjuncts(t));
    case Or(_, _) =>
      GatherDisjunctsFlattens(t);
      GatherDisjunctsFlattens(Norm(t));
      ConjunctsOfNorm(t);
      DisjunctsSmaller(t);
      PrintAllOfNorm(show, Disjuncts(t));
    case _ =>
  }

  lemma {:induction false} PrintAllOfNorm<V>(show: V -> Sexp, ts: seq<Term<V>>)
    ensures PrintAll(show, NormAll(ts)) == PrintAll(show, ts)
    decreases TotalSize(ts), 1 + |ts|
  {
    hide Print, Norm;
    if ts != [] {
      PrintOfNorm(show, ts[0]);
      PrintAllOfNorm(show, ts[1..]);
      assert NormAll(ts)[1..] == NormAll(ts[1..]);
    }
  }

  /** One round of printing and parsing keeps the meaning, the order of the base values and the printed form, and gives
      the term itself back exactly when it is nested to the left. */
  lemma {:induction false} PrintParsePrint<V(!new)>(show: V -> Sexp, read: Sexp -> Option<V>, t: Term<V>, f: V -> bool)
    requires GoodBase(show, read) && Invariant(t)
    ensures var p := Parse(read, Print(show, t));
            p.Some? && LeftNested(p.value) && (p.value == t <==> LeftNested(t)) &&
            Eval(p.value, f) == Eval(t, f) && Values(p.value) == Values(t) && Print(show, p.value) == Print(show, t)
  {
    ParseOfPrint(show, read, t);
    NormLeftNested(t);
    NormPreserves(t, f);
    ValuesAreLeaves(t);
    ValuesAreLeaves(Norm(t));
    PrintOfNorm(show, t);
    if LeftNested(t) { LeftNestedIsNormal(t); }
  }
}
