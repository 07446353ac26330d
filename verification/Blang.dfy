/** The boolean language of blang.ml. */
module Blang {
  import opened Sequences

  // Smart constructors, worklist traversals, substitution and partial evaluation.

  datatype Term<+V> =
    | True
    | False
    | And(left: Term<V>, right: Term<V>)
    | Or(left: Term<V>, right: Term<V>)
    | Not(arg: Term<V>)
    | If(cond: Term<V>, yes: Term<V>, no: Term<V>)
    | Base(value: V)

  // ----- the invariant -----

  /** True and False occur nowhere in the term. */
  predicate NoConstants<V>(t: Term<V>) {
    match t
    case True => false
    case False => false
    case And(a, b) => NoConstants(a) && NoConstants(b)
    case Or(a, b) => NoConstants(a) && NoConstants(b)
    case Not(a) => NoConstants(a)
    case If(a, b, c) => NoConstants(a) && NoConstants(b) && NoConstants(c)
    case Base(_) => true
  }

  /** `invariant`: constants only at the top. */
  predicate Invariant<V>(t: Term<V>) { t.True? || t.False? || NoConstants(t) }

  // ----- smart constructors -----

  function MkNot<V>(t: Term<V>): Term<V> {
    match t case True => False case False => True case _ => Not(t)
  }

  function AndAlso<V>(t: Term<V>, u: Term<V>): Term<V> {
    if t.False? || u.False? then False else if u.True? then t else if t.True? then u else And(t, u)
  }

  function OrElse<V>(t: Term<V>, u: Term<V>): Term<V> {
    if t.True? || u.True? then True else if u.False? then t else if t.False? then u else Or(t, u)
  }

  /** In the third and fourth case the condition is negated by the bare constructor. */
  function MkIf<V>(a: Term<V>, b: Term<V>, c: Term<V>): Term<V> {
    if a.True? then b
    else if a.False? then c
    else if b.True? then OrElse(a, c)
    else if c.False? then AndAlso(a, b)
    else if c.True? then OrElse(Not(a), b)
    else if b.False? then AndAlso(Not(a), c)
    else If(a, b, c)
  }

  function Constant<V>(b: bool): Term<V> { if b then True else False }

  /** The loop of `and_`, which stops at the first False. */
  function AndLoop<V>(acc: Term<V>, ts: seq<Term<V>>): Term<V>
    decreases |ts|
  {
    if ts == [] then acc else if ts[0].False? then False else AndLoop(AndAlso(acc, ts[0]), ts[1..])
  }

  function AndAll<V>(ts: seq<Term<V>>): Term<V> { AndLoop(True, ts) }

  function OrLoop<V>(acc: Term<V>, ts: seq<Term<V>>): Term<V>
    decreases |ts|
  {
    if ts == [] then acc else if ts[0].True? then True else OrLoop(OrElse(acc, ts[0]), ts[1..])
  }

  function OrAll<V>(ts: seq<Term<V>>): Term<V> { OrLoop(False, ts) }

  /** Every smart constructor keeps the invariant. */
  lemma ConstructorsKeepInvariant<V>(a: Term<V>, b: Term<V>, c: Term<V>)
    requires Invariant(a) && Invariant(b) && Invariant(c)
    ensures Invariant(MkNot(a)) && Invariant(AndAlso(a, b)) && Invariant(OrElse(a, b)) && Invariant(MkIf(a, b, c))
  {}

  // ----- meaning -----

  function Eval<V>(t: Term<V>, f: V -> bool): bool {
    match t
    case True => true
    case False => false
    case And(a, b) => Eval(a, f) && Eval(b, f)
    case Or(a, b) => Eval(a, f) || Eval(b, f)
    case Not(a) => !Eval(a, f)
    case If(a, b, c) => if Eval(a, f) then Eval(b, f) else Eval(c, f)
    case Base(v) => f(v)
  }

  /** The smart constructors mean what their names say. */
  lemma ConstructorsEval<V>(a: Term<V>, b: Term<V>, c: Term<V>, f: V -> bool)
    ensures Eval(MkNot(a), f) == !Eval(a, f)
    ensures Eval(AndAlso(a, b), f) == (Eval(a, f) && Eval(b, f))
    ensures Eval(OrElse(a, b), f) == (Eval(a, f) || Eval(b, f))
    ensures Eval(MkIf(a, b, c), f) == if Eval(a, f) then Eval(b, f) else Eval(c, f)
  {
    PairEval(a, b, f);
    PairEval(a, c, f);
    PairEval(Not(a), b, f);
    PairEval(Not(a), c, f);
    hide AndAlso, OrElse;
  }

  lemma PairEval<V>(a: Term<V>, b: Term<V>, f: V -> bool)
    ensures Eval(AndAlso(a, b), f) == (Eval(a, f) && Eval(b, f))
    ensures Eval(OrElse(a, b), f) == (Eval(a, f) || Eval(b, f))
  {}

  lemma {:induction false} AndLoopEval<V>(acc: Term<V>, ts: seq<Term<V>>, f: V -> bool)
    ensures Eval(AndLoop(acc, ts), f) <==> Eval(acc, f) && forall i :: 0 <= i < |ts| ==> Eval(ts[i], f)
    decreases |ts|
  {
    if ts != [] {
      ConstructorsEval(acc, ts[0], acc, f);
      AndLoopEval(AndAlso(acc, ts[0]), ts[1..], f);
      assert forall i :: 0 <= i < |ts| ==> ts[i] == if i == 0 then ts[0] else ts[1..][i - 1];
    }
  }

  lemma {:induction false} OrLoopEval<V>(acc: Term<V>, ts: seq<Term<V>>, f: V -> bool)
    ensures Eval(OrLoop(acc, ts), f) <==> Eval(acc, f) || exists i :: 0 <= i < |ts| && Eval(ts[i], f)
    decreases |ts|
  {
    if ts != [] {
      ConstructorsEval(acc, ts[0], acc, f);
      OrLoopEval(OrElse(acc, ts[0]), ts[1..], f);
      assert forall i :: 0 <= i < |ts| ==> ts[i] == if i == 0 then ts[0] else ts[1..][i - 1];
      if i :| 0 <= i < |ts| && Eval(ts[i], f) {
        if i > 0 { assert Eval(ts[1..][i - 1], f); }
      }
    }
  }

  /** `and_` is conjunction and `or_` disjunction of a whole list. */
  lemma {:induction false} ListsEval<V>(ts: seq<Term<V>>, f: V -> bool)
    ensures Eval(AndAll(ts), f) <==> forall i :: 0 <= i < |ts| ==> Eval(ts[i], f)
    ensures Eval(OrAll(ts), f) <==> exists i :: 0 <= i < |ts| && Eval(ts[i], f)
  {
    AndLoopEval(True, ts, f);
    OrLoopEval(False, ts, f);
  }

  // ----- traversals -----

  function Size<V>(t: Term<V>): nat {
    match t
    case And(a, b) => 1 + Size(a) + Size(b)
    case Or(a, b) => 1 + Size(a) + Size(b)
    case Not(a) => 1 + Size(a)
    case If(a, b, c) => 1 + Size(a) + Size(b) + Size(c)
    case _ => 1
  }

  function TotalSize<V>(ts: seq<Term<V>>): nat {
    if ts == [] then 0 else Size(ts[0]) + TotalSize(ts[1..])
  }

  lemma {:induction false} PushOne<V>(a: Term<V>, ts: seq<Term<V>>)
    ensures TotalSize([a] + ts) == Size(a) + TotalSize(ts)
  {
    assert ([a] + ts)[1..] == ts;
  }

  lemma {:induction false} Pushed<V>(a: Term<V>, b: Term<V>, c: Term<V>, ts: seq<Term<V>>)
    ensures TotalSize([a] + ts) == Size(a) + TotalSize(ts)
    ensures TotalSize([a, b] + ts) == Size(a) + Size(b) + TotalSize(ts)
    ensures TotalSize([a, b, c] + ts) == Size(a) + Size(b) + Size(c) + TotalSize(ts)
  {
    PushOne(a, ts);
    PushTwo(a, b, ts);
    PushThree(a, b, c, ts);
    hide *;
  }

  lemma {:induction false} PushTwo<V>(a: Term<V>, b: Term<V>, ts: seq<Term<V>>)
    ensures TotalSize([a, b] + ts) == Size(a) + Size(b) + TotalSize(ts)
  {
    hide TotalSize, Size;
    PushOne(b, ts);
    PushOne(a, [b] + ts);
    assert [a, b] + ts == [a] + ([b] + ts);
  }

  lemma {:induction false} PushThree<V>(a: Term<V>, b: Term<V>, c: Term<V>, ts: seq<Term<V>>)
    ensures TotalSize([a, b, c] + ts) == Size(a) + Size(b) + Size(c) + TotalSize(ts)
  {
    hide TotalSize, Size;
    PushTwo(b, c, ts);
    PushOne(a, [b, c] + ts);
    assert [a, b, c] + ts == [a] + ([b, c] + ts);
  }

  /** The base values of a term, left to right. */
  function Leaves<V>(t: Term<V>): seq<V> {
    match t
    case True => []
    case False => []
    case And(a, b) => Leaves(a) + Leaves(b)
    case Or(a, b) => Leaves(a) + Leaves(b)
    case Not(a) => Leaves(a)
    case If(a, b, c) => Leaves(a) + Leaves(b) + Leaves(c)
    case Base(v) => [v]
  }

  function LeavesOfAll<V>(ts: seq<Term<V>>): seq<V> {
    if ts == [] then [] else Leaves(ts[0]) + LeavesOfAll(ts[1..])
  }

  /** The loop of `values`: a worklist and a reversed accumulator. */
  function ValuesLoop<V>(acc: seq<V>, ts: seq<Term<V>>): seq<V>
    decreases TotalSize(ts)
  {
    if ts == [] then Reversed(acc) else
      var rest := ts[1..];
      match ts[0]
      case Base(v) => ValuesLoop([v] + acc, rest)
      case True => ValuesLoop(acc, rest)
      case False => ValuesLoop(acc, rest)
      case Not(a) => Pushed(a, a, a, rest); ValuesLoop(acc, [a] + rest)
      case And(a, b) => Pushed(a, b, b, rest); ValuesLoop(acc, [a, b] + rest)
      case Or(a, b) => Pushed(a, b, b, rest); ValuesLoop(acc, [a, b] + rest)
      case If(a, b, c) => Pushed(a, b, c, rest); ValuesLoop(acc, [a, b, c] + rest)
  }

  function Values<V>(t: Term<V>): seq<V> { ValuesLoop([], [t]) }

  lemma {:induction false} PushOneLeaves<V>(a: Term<V>, ts: seq<Term<V>>)
    ensures LeavesOfAll([a] + ts) == Leaves(a) + LeavesOfAll(ts)
  {
    assert ([a] + ts)[1..] == ts;
  }

  lemma {:induction false} PushedLeaves<V>(a: Term<V>, b: Term<V>, c: Term<V>, ts: seq<Term<V>>)
    ensures LeavesOfAll([a] + ts) == Leaves(a) + LeavesOfAll(ts)
    ensures LeavesOfAll([a, b] + ts) == Leaves(a) + Leaves(b) + LeavesOfAll(ts)
    ensures LeavesOfAll([a, b, c] + ts) == Leaves(a) + Leaves(b) + Leaves(c) + LeavesOfAll(ts)
  {
    PushOneLeaves(a, ts);
    PushTwoLeaves(a, b, ts);
    PushThreeLeaves(a, b, c, ts);
    hide *;
  }

  lemma {:induction false} PushTwoLeaves<V>(a: Term<V>, b: Term<V>, ts: seq<Term<V>>)
    ensures LeavesOfAll([a, b] + ts) == Leaves(a) + Leaves(b) + LeavesOfAll(ts)
  {
    hide LeavesOfAll, Leaves;
    PushOneLeaves(b, ts);
    PushOneLeaves(a, [b] + ts);
    assert [a, b] + ts == [a] + ([b] + ts);
  }

  lemma {:induction false} PushThreeLeaves<V>(a: Term<V>, b: Term<V>, c: Term<V>, ts: seq<Term<V>>)
    ensures LeavesOfAll([a, b, c] + ts) == Leaves(a) + Leaves(b) + Leaves(c) + LeavesOfAll(ts)
  {
    hide LeavesOfAll, Leaves;
    PushTwoLeaves(b, c, ts);
    PushOneLeaves(a, [b, c] + ts);
    assert [a, b, c] + ts == [a] + ([b, c] + ts);
  }

  lemma {:induction false} ValuesLoopFlattens<V>(acc: seq<V>, ts: seq<Term<V>>)
    ensures ValuesLoop(acc, ts) == Reversed(acc) + LeavesOfAll(ts)
    decreases TotalSize(ts)
  {
    if ts != [] {
      hide LeavesOfAll, TotalSize;
      var t, rest := ts[0], ts[1..];
      assert ts == [t] + rest;
      PushOne(t, rest);
      PushOneLeaves(t, rest);
      match t
      case Base(v) =>
        ValuesLoopFlattens([v] + acc, rest);
        ReversedCons(v, acc);
        assert Reversed(acc) + [v] + LeavesOfAll(rest) == Reversed(acc) + ([v] + LeavesOfAll(rest));
      case True => ValuesLoopFlattens(acc, rest);
      case False => ValuesLoopFlattens(acc, rest);
      case Not(a) => Pushed(a, a, a, rest); PushedLeaves(a, a, a, rest); ValuesLoopFlattens(acc, [a] + rest);
      case And(a, b) => Pushed(a, b, b, rest); PushedLeaves(a, b, b, rest); ValuesLoopFlattens(acc, [a, b] + rest);
      case Or(a, b) => Pushed(a, b, b, rest); PushedLeaves(a, b, b, rest); ValuesLoopFlattens(acc, [a, b] + rest);
      case If(a, b, c) => Pushed(a, b, c, rest); PushedLeaves(a, b, c, rest); ValuesLoopFlattens(acc, [a, b, c] + rest);
    }
  }

  /** The worklist lists the base values from left to right. */
  lemma {:induction false} ValuesAreLeaves<V>(t: Term<V>)
    ensures Values(t) == Leaves(t)
  {
    ValuesLoopFlattens([], [t]);
    assert [t][1..] == [] && LeavesOfAll<V>([]) == [];
  }

  function FoldSeq<V, A>(s: seq<V>, init: A, f: (A, V) -> A): A {
    if s == [] then init else FoldSeq(s[1..], f(init, s[0]), f)
  }

  /** `fold`, with the subterms still to come in `pending`. */
  function FoldLoop<V, A>(acc: A, t: Term<V>, pending: seq<Term<V>>, f: (A, V) -> A): A
    decreases Size(t) + TotalSize(pending), 1
  {
    match t
    case Base(v) => FoldNext(f(acc, v), pending, f)
    case True => FoldNext(acc, pending, f)
    case False => FoldNext(acc, pending, f)
    case Not(a) => FoldLoop(acc, a, pending, f)
    case And(a, b) => Pushed(b, b, b, pending); FoldLoop(acc, a, [b] + pending, f)
    case Or(a, b) => Pushed(b, b, b, pending); FoldLoop(acc, a, [b] + pending, f)
    case If(a, b, c) => Pushed(b, c, c, pending); FoldLoop(acc, a, [b, c] + pending, f)
  }

  function FoldNext<V, A>(acc: A, pending: seq<Term<V>>, f: (A, V) -> A): A
    decreases TotalSize(pending), 2
  {
    if pending == [] then acc else FoldLoop(acc, pending[0], pending[1..], f)
  }

  lemma {:induction false} FoldLoopIsFold<V, A>(acc: A, t: Term<V>, pending: seq<Term<V>>, f: (A, V) -> A)
    ensures FoldLoop(acc, t, pending, f) == FoldSeq(Leaves(t) + LeavesOfAll(pending), acc, f)
    decreases Size(t) + TotalSize(pending), 1
  {
    hide LeavesOfAll, TotalSize;
    var later := LeavesOfAll(pending);
    match t
    case Base(v) =>
      FoldNextIsFold(f(acc, v), pending, f);
      assert ([v] + later)[1..] == later;
    case True => FoldNextIsFold(acc, pending, f); assert [] + later == later;
    case False => FoldNextIsFold(acc, pending, f); assert [] + later == later;
    case Not(a) => FoldLoopIsFold(acc, a, pending, f);
    case And(a, b) => FoldPair(acc, a, b, pending, f);
    case Or(a, b) => FoldPair(acc, a, b, pending, f);
    case If(a, b, c) => FoldTriple(acc, a, b, c, pending, f);
  }

  lemma {:induction false} FoldTriple<V, A>(acc: A, a: Term<V>, b: Term<V>, c: Term<V>, pending: seq<Term<V>>,
          f: (A, V) -> A)
    ensures FoldLoop(acc, a, [b, c] + pending, f) ==
            FoldSeq(Leaves(a) + Leaves(b) + Leaves(c) + LeavesOfAll(pending), acc, f)
    decreases Size(a) + Size(b) + Size(c) + TotalSize(pending), 2
  {
    hide LeavesOfAll, TotalSize, Leaves, FoldSeq, FoldLoop;
    Pushed(b, c, c, pending);
    PushedLeaves(b, c, c, pending);
    FoldLoopIsFold(acc, a, [b, c] + pending, f);
    assert Leaves(a) + (Leaves(b) + Leaves(c) + LeavesOfAll(pending)) ==
           Leaves(a) + Leaves(b) + Leaves(c) + LeavesOfAll(pending);
  }

  lemma {:induction false} FoldPair<V, A>(acc: A, a: Term<V>, b: Term<V>, pending: seq<Term<V>>, f: (A, V) -> A)
    ensures FoldLoop(acc, a, [b] + pending, f) == FoldSeq(Leaves(a) + Leaves(b) + LeavesOfAll(pending), acc, f)
    decreases Size(a) + Size(b) + TotalSize(pending), 2
  {
    hide LeavesOfAll, TotalSize, Leaves, FoldSeq, FoldLoop;
    Pushed(b, b, b, pending);
    PushedLeaves(b, b, b, pending);
    FoldLoopIsFold(acc, a, [b] + pending, f);
    assert Leaves(a) + (Leaves(b) + LeavesOfAll(pending)) == Leaves(a) + Leaves(b) + LeavesOfAll(pending);
  }

  lemma {:induction false} FoldNextIsFold<V, A>(acc: A, pending: seq<Term<V>>, f: (A, V) -> A)
    ensures FoldNext(acc, pending, f) == FoldSeq(LeavesOfAll(pending), acc, f)
    decreases TotalSize(pending), 2
  {
    if pending != [] { FoldLoopIsFold(acc, pending[0], pending[1..], f); }
  }

  /** `fold` visits the base values in the order of `values`. */
  lemma {:induction false} FoldIsFoldOfValues<V, A>(t: Term<V>, init: A, f: (A, V) -> A)
    ensures FoldLoop(init, t, [], f) == FoldSeq(Values(t), init, f)
  {
    FoldLoopIsFold(init, t, [], f);
    ValuesAreLeaves(t);
    assert Leaves(t) + [] == Leaves(t);
  }

  lemma {:induction false} ValuesCollect<V>(s: seq<V>, init: seq<V>)
    ensures FoldSeq(s, init, (acc, v) => acc + [v]) == init + s
    decreases s
  {
    if s != [] {
      ValuesCollect(s[1..], init + [s[0]]);
      assert s == [s[0]] + s[1..];
    }
  }

  /** A fold that collects finds the base values from left to right. */
  lemma {:induction false} FoldCollects<V>(t: Term<V>)
    ensures FoldLoop([], t, [], (acc, v) => acc + [v]) == Leaves(t)
  {
    FoldIsFoldOfValues(t, [], (acc, v) => acc + [v]);
    ValuesCollect(Values(t), []);
    ValuesAreLeaves(t);
  }

  // ----- conjuncts and disjuncts -----

  /** The conjuncts of a term: none for True, those of both sides for a conjunction, and else the term itself. */
  function Conjuncts<V>(t: Term<V>): seq<Term<V>> {
    match t case True => [] case And(a, b) => Conjuncts(a) + Conjuncts(b) case _ => [t]
  }

  function ConjunctsOfAll<V>(ts: seq<Term<V>>): seq<Term<V>> {
    if ts == [] then [] else Conjuncts(ts[0]) + ConjunctsOfAll(ts[1..])
  }

  function ConjunctsLoop<V>(acc: seq<Term<V>>, ts: seq<Term<V>>): seq<Term<V>>
    decreases TotalSize(ts)
  {
    if ts == [] then Reversed(acc) else
      match ts[0]
      case True => ConjunctsLoop(acc, ts[1..])
      case And(a, b) => Pushed(a, b, b, ts[1..]); ConjunctsLoop(acc, [a, b] + ts[1..])
      case _ => ConjunctsLoop([ts[0]] + acc, ts[1..])
  }

  function GatherConjuncts<V>(t: Term<V>): seq<Term<V>> { ConjunctsLoop([], [t]) }

  lemma {:induction false} ConjunctsOfOne<V>(a: Term<V>, ts: seq<Term<V>>)
    ensures ConjunctsOfAll([a] + ts) == Conjuncts(a) + ConjunctsOfAll(ts)
  {
    assert ([a] + ts)[1..] == ts;
  }

  lemma {:induction false} ConjunctsOfPushed<V>(a: Term<V>, b: Term<V>, ts: seq<Term<V>>)
    ensures ConjunctsOfAll([a] + ts) == Conjuncts(a) + ConjunctsOfAll(ts)
    ensures ConjunctsOfAll([a, b] + ts) == Conjuncts(a) + Conjuncts(b) + ConjunctsOfAll(ts)
  {
    hide Conjuncts, ConjunctsOfAll;
    ConjunctsOfOne(a, ts);
    ConjunctsOfOne(b, ts);
    ConjunctsOfOne(a, [b] + ts);
    assert [a, b] + ts == [a] + ([b] + ts);
  }

  lemma {:induction false} ConjunctsLoopFlattens<V>(acc: seq<Term<V>>, ts: seq<Term<V>>)
    ensures ConjunctsLoop(acc, ts) == Reversed(acc) + ConjunctsOfAll(ts)
    decreases TotalSize(ts)
  {
    if ts != [] {
      hide ConjunctsOfAll, TotalSize;
      var t, rest := ts[0], ts[1..];
      assert ts == [t] + rest;
      PushOne(t, rest);
      ConjunctsOfPushed(t, t, rest);
      match t
      case True => ConjunctsLoopFlattens(acc, rest);
      case And(a, b) =>
        Pushed(a, b, b, rest);
        ConjunctsOfPushed(a, b, rest);
        ConjunctsLoopFlattens(acc, [a, b] + rest);
      case _ =>
        ConjunctsLoopFlattens([t] + acc, rest);
        ReversedCons(t, acc);
        assert Reversed(acc) + [t] + ConjunctsOfAll(rest) == Reversed(acc) + ([t] + ConjunctsOfAll(rest));
    }
  }

  /** The worklist gathers the top-level conjuncts from left to right. */
  lemma {:induction false} GatherConjunctsFlattens<V>(t: Term<V>)
    ensures GatherConjuncts(t) == Conjuncts(t)
  {
    ConjunctsLoopFlattens([], [t]);
    assert [t][1..] == [] && ConjunctsOfAll<V>([]) == [];
  }

  function Disjuncts<V>(t: Term<V>): seq<Term<V>> {
    match t case False => [] case Or(a, b) => Disjuncts(a) + Disjuncts(b) case _ => [t]
  }

  function DisjunctsOfAll<V>(ts: seq<Term<V>>): seq<Term<V>> {
    if ts == [] then [] else Disjuncts(ts[0]) + DisjunctsOfAll(ts[1..])
  }

  function DisjunctsLoop<V>(acc: seq<Term<V>>, ts: seq<Term<V>>): seq<Term<V>>
    decreases TotalSize(ts)
  {
    if ts == [] then Reversed(acc) else
      match ts[0]
      case False => DisjunctsLoop(acc, ts[1..])
      case Or(a, b) => Pushed(a, b, b, ts[1..]); DisjunctsLoop(acc, [a, b] + ts[1..])
      case _ => DisjunctsLoop([ts[0]] + acc, ts[1..])
  }

  function GatherDisjuncts<V>(t: Term<V>): seq<Term<V>> { DisjunctsLoop([], [t]) }

  lemma {:induction false} DisjunctsOfOne<V>(a: Term<V>, ts: seq<Term<V>>)
    ensures DisjunctsOfAll([a] + ts) == Disjuncts(a) + DisjunctsOfAll(ts)
  {
    assert ([a] + ts)[1..] == ts;
  }

  lemma {:induction false} DisjunctsOfPushed<V>(a: Term<V>, b: Term<V>, ts: seq<Term<V>>)
    ensures DisjunctsOfAll([a] + ts) == Disjuncts(a) + DisjunctsOfAll(ts)
    ensures DisjunctsOfAll([a, b] + ts) == Disjuncts(a) + Disjuncts(b) + DisjunctsOfAll(ts)
  {
    hide Disjuncts, DisjunctsOfAll;
    DisjunctsOfOne(a, ts);
    DisjunctsOfOne(b, ts);
    DisjunctsOfOne(a, [b] + ts);
    assert [a, b] + ts == [a] + ([b] + ts);
  }

  lemma {:induction false} DisjunctsLoopFlattens<V>(acc: seq<Term<V>>, ts: seq<Term<V>>)
    ensures DisjunctsLoop(acc, ts) == Reversed(acc) + DisjunctsOfAll(ts)
    decreases TotalSize(ts)
  {
    if ts != [] {
      hide DisjunctsOfAll, TotalSize;
      var t, rest := ts[0], ts[1..];
      assert ts == [t] + rest;
      PushOne(t, rest);
      DisjunctsOfPushed(t, t, rest);
      match t
      case False => DisjunctsLoopFlattens(acc, rest);
      case Or(a, b) =>
        Pushed(a, b, b, rest);
        DisjunctsOfPushed(a, b, rest);
        DisjunctsLoopFlattens(acc, [a, b] + rest);
      case _ =>
        DisjunctsLoopFlattens([t] + acc, rest);
        ReversedCons(t, acc);
        assert Reversed(acc) + [t] + DisjunctsOfAll(rest) == Reversed(acc) + ([t] + DisjunctsOfAll(rest));
    }
  }

  lemma {:induction false} GatherDisjunctsFlattens<V>(t: Term<V>)
    ensures GatherDisjuncts(t) == Disjuncts(t)
  {
    DisjunctsLoopFlattens([], [t]);
    assert [t][1..] == [] && DisjunctsOfAll<V>([]) == [];
  }

  /** Neither a conjunction nor a constant. */
  predicate PlainConjunct<V>(t: Term<V>) { !t.True? && !t.False? && !t.And? }

  predicate PlainDisjunct<V>(t: Term<V>) { !t.True? && !t.False? && !t.Or? }

  lemma {:induction false} NeverConjunction<V>(t: Term<V>)
    ensures forall i :: 0 <= i < |Conjuncts(t)| ==> !Conjuncts(t)[i].True? && !Conjuncts(t)[i].And?
  {
    if t.And? { NeverConjunction(t.left); NeverConjunction(t.right); }
  }

  lemma {:induction false} ConjunctsOfAllPlain<V>(ts: seq<Term<V>>)
    ensures forall i :: 0 <= i < |ConjunctsOfAll(ts)| ==> !ConjunctsOfAll(ts)[i].True? && !ConjunctsOfAll(ts)[i].And?
    ensures (forall i :: 0 <= i < |ts| ==> !ts[i].True? && !ts[i].And?) ==> ConjunctsOfAll(ts) == ts
  {
    if ts != [] {
      NeverConjunction(ts[0]);
      ConjunctsOfAllPlain(ts[1..]);
      if forall i :: 0 <= i < |ts| ==> !ts[i].True? && !ts[i].And? {
        assert forall i :: 0 <= i < |ts[1..]| ==> ts[1..][i] == ts[i + 1];
        assert ts == [ts[0]] + ts[1..];
      }
    }
  }

  predicate HasFalse<V>(ts: seq<Term<V>>) { ts != [] && (ts[0].False? || HasFalse(ts[1..])) }

  lemma {:induction false} HasFalseSomewhere<V>(ts: seq<Term<V>>)
    ensures HasFalse(ts) <==> exists i :: 0 <= i < |ts| && ts[i].False?
  {
    if ts != [] {
      HasFalseSomewhere(ts[1..]);
      if j :| 0 <= j < |ts[1..]| && ts[1..][j].False? { assert ts[j + 1].False?; }
      if i :| 0 <= i < |ts| && ts[i].False? {
        if i > 0 { assert ts[1..][i - 1].False?; }
      }
    }
  }

  lemma {:induction false} ConjunctsOfAndLoop<V>(acc: Term<V>, ts: seq<Term<V>>)
    requires !acc.False?
    ensures Conjuncts(AndLoop(acc, ts)) == if HasFalse(ts) then [False] else Conjuncts(acc) + ConjunctsOfAll(ts)
    decreases |ts|
  {
    hide Conjuncts;
    if ts == [] {
      assert Conjuncts(acc) + ConjunctsOfAll(ts) == Conjuncts(acc);
    } else if ts[0].False? {
      ConjunctsOfFalse<V>();
      assert AndLoop(acc, ts) == False && HasFalse(ts);
    } else {
      AndLoopStep(acc, ts);
      ConjunctsOfAndAlso(acc, ts[0]);
      hide *;
      ConjunctsOfAndLoop(AndAlso(acc, ts[0]), ts[1..]);
      var a, b, c := Conjuncts(acc), Conjuncts(ts[0]), ConjunctsOfAll(ts[1..]);
      assert a + b + c == a + (b + c);
    }
  }

  lemma ConjunctsOfFalse<V>()
    ensures Conjuncts(Term<V>.False) == [False]
  {}

  lemma AndLoopStep<V>(acc: Term<V>, ts: seq<Term<V>>)
    requires ts != [] && !ts[0].False?
    ensures AndLoop(acc, ts) == AndLoop(AndAlso(acc, ts[0]), ts[1..])
    ensures HasFalse(ts) == HasFalse(ts[1..]) && ConjunctsOfAll(ts) == Conjuncts(ts[0]) + ConjunctsOfAll(ts[1..])
  {}

  lemma {:induction false} ConjunctsOfAndAlso<V>(t: Term<V>, u: Term<V>)
    requires !t.False? && !u.False?
    ensures !AndAlso(t, u).False? && Conjuncts(AndAlso(t, u)) == Conjuncts(t) + Conjuncts(u)
  {
    if u.True? {
      assert Conjuncts(t) + Conjuncts(u) == Conjuncts(t);
    } else if t.True? {
      assert Conjuncts(t) + Conjuncts(u) == Conjuncts(u);
    } else {
      assert AndAlso(t, u) == And(t, u);
    }
  }

  /** The documented `gather_conjuncts (and_ ts) = ts` is not a law for all lists: it holds exactly for lists without
      constants and conjunctions, and for the list of False alone. */
  lemma {:induction false} GatherOfAnd<V>(ts: seq<Term<V>>)
    ensures GatherConjuncts(AndAll(ts)) == ts <==> ts == [False] || forall i :: 0 <= i < |ts| ==> PlainConjunct(ts[i])
  {
    GatherConjunctsFlattens(AndAll(ts));
    ConjunctsOfAndLoop(True, ts);
    HasFalseSomewhere(ts);
    ConjunctsOfAllPlain(ts);
    hide AndLoop, ConjunctsOfAll, HasFalse;
    assert Conjuncts<V>(True) + ConjunctsOfAll(ts) == ConjunctsOfAll(ts);
    if i :| 0 <= i < |ts| && ts[i].False? {
      assert !PlainConjunct(ts[i]);
      assert [False][0] == Term<V>.False;
    } else {
      if ConjunctsOfAll(ts) == ts {
        assert forall i :: 0 <= i < |ts| ==> !ts[i].True? && !ts[i].And?;
      }
    }
  }

  /** A conjunction in the list is flattened away. */
  lemma {:induction false} GatherOfAndCounterexample()
    ensures var t := And(Base(1), Base(2)); GatherConjuncts(AndAll([t])) == [Base(1), Base(2)]
  {
    var t: Term<int> := And(Base(1), Base(2));
    var none: seq<Term<int>> := [t][1..];
    assert none == [];
    assert AndLoop(True, [t]) == AndLoop(t, none);
    GatherConjunctsFlattens(t);
  }

  lemma {:induction false} NeverDisjunction<V>(t: Term<V>)
    ensures forall i :: 0 <= i < |Disjuncts(t)| ==> !Disjuncts(t)[i].False? && !Disjuncts(t)[i].Or?
  {
    if t.Or? { NeverDisjunction(t.left); NeverDisjunction(t.right); }
  }

  lemma {:induction false} DisjunctsOfAllPlain<V>(ts: seq<Term<V>>)
    ensures forall i :: 0 <= i < |DisjunctsOfAll(ts)| ==> !DisjunctsOfAll(ts)[i].False? && !DisjunctsOfAll(ts)[i].Or?
    ensures (forall i :: 0 <= i < |ts| ==> !ts[i].False? && !ts[i].Or?) ==> DisjunctsOfAll(ts) == ts
  {
    if ts != [] {
      NeverDisjunction(ts[0]);
      DisjunctsOfAllPlain(ts[1..]);
      if forall i :: 0 <= i < |ts| ==> !ts[i].False? && !ts[i].Or? {
        assert forall i :: 0 <= i < |ts[1..]| ==> ts[1..][i] == ts[i + 1];
        assert ts == [ts[0]] + ts[1..];
      }
    }
  }

  predicate HasTrue<V>(ts: seq<Term<V>>) { ts != [] && (ts[0].True? || HasTrue(ts[1..])) }

  lemma {:induction false} HasTrueSomewhere<V>(ts: seq<Term<V>>)
    ensures HasTrue(ts) <==> exists i :: 0 <= i < |ts| && ts[i].True?
  {
    if ts != [] {
      HasTrueSomewhere(ts[1..]);
      if j :| 0 <= j < |ts[1..]| && ts[1..][j].True? { assert ts[j + 1].True?; }
      if i :| 0 <= i < |ts| && ts[i].True? {
        if i > 0 { assert ts[1..][i - 1].True?; }
      }
    }
  }

  lemma {:induction false} DisjunctsOfOrLoop<V>(acc: Term<V>, ts: seq<Term<V>>)
    requires !acc.True?
    ensures Disjuncts(OrLoop(acc, ts)) == if HasTrue(ts) then [True] else Disjuncts(acc) + DisjunctsOfAll(ts)
    decreases |ts|
  {
    hide Disjuncts;
    if ts == [] {
      assert Disjuncts(acc) + DisjunctsOfAll(ts) == Disjuncts(acc);
    } else if ts[0].True? {
      DisjunctsOfTrue<V>();
      assert OrLoop(acc, ts) == True && HasTrue(ts);
    } else {
      OrLoopStep(acc, ts);
      DisjunctsOfOrElse(acc, ts[0]);
      hide *;
      DisjunctsOfOrLoop(OrElse(acc, ts[0]), ts[1..]);
      var a, b, c := Disjuncts(acc), Disjuncts(ts[0]), DisjunctsOfAll(ts[1..]);
      assert a + b + c == a + (b + c);
    }
  }

  lemma DisjunctsOfTrue<V>()
    ensures Disjuncts(Term<V>.True) == [True]
  {}

  lemma OrLoopStep<V>(acc: Term<V>, ts: seq<Term<V>>)
    requires ts != [] && !ts[0].True?
    ensures OrLoop(acc, ts) == OrLoop(OrElse(acc, ts[0]), ts[1..])
    ensures HasTrue(ts) == HasTrue(ts[1..]) && DisjunctsOfAll(ts) == Disjuncts(ts[0]) + DisjunctsOfAll(ts[1..])
  {}

  lemma {:induction false} DisjunctsOfOrElse<V>(t: Term<V>, u: Term<V>)
    requires !t.True? && !u.True?
    ensures !OrElse(t, u).True? && Disjuncts(OrElse(t, u)) == Disjuncts(t) + Disjuncts(u)
  {
    if u.False? {
      assert Disjuncts(t) + Disjuncts(u) == Disjuncts(t);
    } else if t.False? {
      assert Disjuncts(t) + Disjuncts(u) == Disjuncts(u);
    } else {
      assert OrElse(t, u) == Or(t, u);
    }
  }

  /** The same for `gather_disjuncts (or_ ts) = ts`. */
  lemma {:induction false} GatherOfOr<V>(ts: seq<Term<V>>)
    ensures GatherDisjuncts(OrAll(ts)) == ts <==> ts == [True] || forall i :: 0 <= i < |ts| ==> PlainDisjunct(ts[i])
  {
    GatherDisjunctsFlattens(OrAll(ts));
    DisjunctsOfOrLoop(False, ts);
    HasTrueSomewhere(ts);
    DisjunctsOfAllPlain(ts);
    hide OrLoop, DisjunctsOfAll, HasTrue;
    assert Disjuncts<V>(False) + DisjunctsOfAll(ts) == DisjunctsOfAll(ts);
    if i :| 0 <= i < |ts| && ts[i].True? {
      assert !PlainDisjunct(ts[i]);
      assert [True][0] == Term<V>.True;
    } else {
      if DisjunctsOfAll(ts) == ts {
        assert forall i :: 0 <= i < |ts| ==> !ts[i].False? && !ts[i].Or?;
      }
    }
  }

  /** A disjunction in the list is flattened away. */
  lemma {:induction false} GatherOfOrCounterexample()
    ensures var t := Or(Base(1), Base(2)); GatherDisjuncts(OrAll([t])) == [Base(1), Base(2)]
  {
    var t: Term<int> := Or(Base(1), Base(2));
    var none: seq<Term<int>> := [t][1..];
    assert none == [];
    assert OrLoop(False, [t]) == OrLoop(t, none);
    GatherDisjunctsFlattens(t);
  }

  // ----- the substitution monad -----

  function Bind<V, W>(t: Term<V>, k: V -> Term<W>): Term<W> {
    match t
    case Base(v) => k(v)
    case True => True
    case False => False
    case Not(a) => MkNot(Bind(a, k))
    case And(a, b) => AndAlso(Bind(a, k), Bind(b, k))
    case Or(a, b) => OrElse(Bind(a, k), Bind(b, k))
    case If(a, b, c) => MkIf(Bind(a, k), Bind(b, k), Bind(c, k))
  }

  /** Substitution keeps the invariant, whatever term it starts from. */
  lemma {:induction false} BindKeepsInvariant<V(!new), W>(t: Term<V>, k: V -> Term<W>)
    requires forall v :: Invariant(k(v))
    ensures Invariant(Bind(t, k))
  {
    match t
    case Not(a) => BindKeepsInvariant(a, k);
    case And(a, b) =>
      BindKeepsInvariant(a, k); BindKeepsInvariant(b, k);
      ConstructorsKeepInvariant(Bind(a, k), Bind(b, k), True);
    case Or(a, b) =>
      BindKeepsInvariant(a, k); BindKeepsInvariant(b, k);
      ConstructorsKeepInvariant(Bind(a, k), Bind(b, k), True);
    case If(a, b, c) =>
      BindKeepsInvariant(a, k); BindKeepsInvariant(b, k); BindKeepsInvariant(c, k);
      ConstructorsKeepInvariant(Bind(a, k), Bind(b, k), Bind(c, k));
    case _ =>
  }

  lemma {:induction false} BindReturn<V>(t: Term<V>)
    requires NoConstants(t)
    ensures Bind(t, (v: V) => Base(v)) == t
  {
    match t
    case Not(a) => BindReturn(a);
    case And(a, b) => BindReturn(a); BindReturn(b);
    case Or(a, b) => BindReturn(a); BindReturn(b);
    case If(a, b, c) => BindReturn(a); BindReturn(b); BindReturn(c);
    case Base(_) =>
  }

  /** The right identity law, for exactly the terms that meet the invariant. */
  lemma {:induction false} RightIdentity<V(!new)>(t: Term<V>)
    ensures Bind(t, (v: V) => Base(v)) == t <==> Invariant(t)
  {
    BindKeepsInvariant(t, (v: V) => Base(v));
    if NoConstants(t) { BindReturn(t); }
  }

  /** The left identity law. */
  lemma LeftIdentity<V, W>(v: V, k: V -> Term<W>)
    ensures Bind(Base(v), k) == k(v)
  {}

  /** Substitution commutes with the smart constructors. */
  lemma {:induction false} BindOfConstructors<V, W>(a: Term<V>, b: Term<V>, c: Term<V>, k: V -> Term<W>)
    ensures Bind(MkNot(a), k) == MkNot(Bind(a, k))
    ensures Bind(AndAlso(a, b), k) == AndAlso(Bind(a, k), Bind(b, k))
    ensures Bind(OrElse(a, b), k) == OrElse(Bind(a, k), Bind(b, k))
    ensures Bind(MkIf(a, b, c), k) == MkIf(Bind(a, k), Bind(b, k), Bind(c, k))
  {
    BindOfJunctions(a, b, k);
    BindOfIf(a, b, c, k);
    hide *;
  }

  lemma {:induction false} BindOfJunctions<V, W>(a: Term<V>, b: Term<V>, k: V -> Term<W>)
    ensures Bind(MkNot(a), k) == MkNot(Bind(a, k))
    ensures Bind(AndAlso(a, b), k) == AndAlso(Bind(a, k), Bind(b, k))
    ensures Bind(OrElse(a, b), k) == OrElse(Bind(a, k), Bind(b, k))
  {
    BindOfNot(a, k); BindOfAnd(a, b, k); BindOfOr(a, b, k);
    hide *;
  }

  lemma BindOfNot<V, W>(a: Term<V>, k: V -> Term<W>)
    ensures Bind(MkNot(a), k) == MkNot(Bind(a, k))
  {}

  lemma BindOfAnd<V, W>(a: Term<V>, b: Term<V>, k: V -> Term<W>)
    ensures Bind(AndAlso(a, b), k) == AndAlso(Bind(a, k), Bind(b, k))
  {}

  lemma BindOfOr<V, W>(a: Term<V>, b: Term<V>, k: V -> Term<W>)
    ensures Bind(OrElse(a, b), k) == OrElse(Bind(a, k), Bind(b, k))
  {}

  lemma BindOfConstants<V, W>(a: Term<V>, k: V -> Term<W>)
    ensures a.True? ==> Bind(a, k) == True
    ensures a.False? ==> Bind(a, k) == False
    ensures Bind(Not(a), k) == MkNot(Bind(a, k))
  {}

  lemma {:induction false} BindOfIf<V, W>(a: Term<V>, b: Term<V>, c: Term<V>, k: V -> Term<W>)
    ensures Bind(MkIf(a, b, c), k) == MkIf(Bind(a, k), Bind(b, k), Bind(c, k))
  {
    assert Bind(If(a, b, c), k) == MkIf(Bind(a, k), Bind(b, k), Bind(c, k));
    BindOfConstants(a, k); BindOfConstants(b, k); BindOfConstants(c, k);
    BindOfOr(a, c, k); BindOfAnd(a, b, k); BindOfOr(Not(a), b, k); BindOfAnd(Not(a), c, k);
    hide Bind;
  }

  /** The associativity law. */
  lemma {:induction false} Associativity<U, V, W>(t: Term<U>, k: U -> Term<V>, h: V -> Term<W>)
    ensures Bind(Bind(t, k), h) == Bind(t, (v: U) => Bind(k(v), h))
  {
    match t
    case Not(a) =>
      Associativity(a, k, h);
      BindOfConstructors(Bind(a, k), Bind(a, k), Bind(a, k), h);
    case And(a, b) =>
      Associativity(a, k, h); Associativity(b, k, h);
      BindOfConstructors(Bind(a, k), Bind(b, k), Bind(b, k), h);
    case Or(a, b) =>
      Associativity(a, k, h); Associativity(b, k, h);
      BindOfConstructors(Bind(a, k), Bind(b, k), Bind(b, k), h);
    case If(a, b, c) =>
      Associativity(a, k, h); Associativity(b, k, h); Associativity(c, k, h);
      BindOfConstructors(Bind(a, k), Bind(b, k), Bind(c, k), h);
    case _ =>
  }

  /** Evaluation after substitution is evaluation with the meanings of the substituted terms. */
  lemma {:induction false} EvalBind<V, W>(t: Term<V>, k: V -> Term<W>, f: W -> bool)
    ensures Eval(Bind(t, k), f) == Eval(t, (v: V) => Eval(k(v), f))
  {
    match t
    case Not(a) =>
      EvalBind(a, k, f);
      ConstructorsEval(Bind(a, k), Bind(a, k), Bind(a, k), f);
    case And(a, b) =>
      EvalBind(a, k, f); EvalBind(b, k, f);
      ConstructorsEval(Bind(a, k), Bind(b, k), Bind(b, k), f);
    case Or(a, b) =>
      EvalBind(a, k, f); EvalBind(b, k, f);
      ConstructorsEval(Bind(a, k), Bind(b, k), Bind(b, k), f);
    case If(a, b, c) =>
      EvalBind(a, k, f); EvalBind(b, k, f); EvalBind(c, k, f);
      ConstructorsEval(Bind(a, k), Bind(b, k), Bind(c, k), f);
    case _ =>
  }

  // ----- partial evaluation -----

  datatype Knowledge = Known(b: bool) | Unknown

  function Replace<V>(g: V -> Knowledge): V -> Term<V> {
    (v: V) => match g(v) case Known(c) => Constant(c) case Unknown => Base(v)
  }

  function Specialize<V>(t: Term<V>, g: V -> Knowledge): Term<V> { Bind(t, Replace(g)) }

  /** Knowing nothing changes nothing, for exactly the terms that meet the invariant. */
  lemma {:induction false} SpecializeNothing<V(!new)>(t: Term<V>)
    ensures Specialize(t, (v: V) => Unknown) == t <==> Invariant(t)
  {
    BindExtensional(t, Replace((v: V) => Unknown), (v: V) => Base(v));
    RightIdentity(t);
  }

  lemma {:induction false} BindExtensional<V(!new), W>(t: Term<V>, k: V -> Term<W>, h: V -> Term<W>)
    requires forall v :: k(v) == h(v)
    ensures Bind(t, k) == Bind(t, h)
  {
    match t
    case Not(a) => BindExtensional(a, k, h);
    case And(a, b) => BindExtensional(a, k, h); BindExtensional(b, k, h);
    case Or(a, b) => BindExtensional(a, k, h); BindExtensional(b, k, h);
    case If(a, b, c) => BindExtensional(a, k, h); BindExtensional(b, k, h); BindExtensional(c, k, h);
    case _ =>
  }

  /** Knowing everything evaluates. */
  lemma {:induction false} SpecializeEverything<V>(t: Term<V>, f: V -> bool)
    ensures Specialize(t, (v: V) => Known(f(v))) == Constant(Eval(t, f))
  {
    match t
    case Not(a) => SpecializeEverything(a, f);
    case And(a, b) => SpecializeEverything(a, f); SpecializeEverything(b, f);
    case Or(a, b) => SpecializeEverything(a, f); SpecializeEverything(b, f);
    case If(a, b, c) => SpecializeEverything(a, f); SpecializeEverything(b, f); SpecializeEverything(c, f);
    case _ =>
  }

  predicate AllUnknown<V>(s: seq<V>, g: V -> Knowledge) {
    forall i :: 0 <= i < |s| ==> g(s[i]) == Unknown
  }

  /** Only unknown values are left. */
  lemma {:induction false} LeavesOfSpecialized<V>(t: Term<V>, g: V -> Knowledge)
    ensures AllUnknown(Leaves(Specialize(t, g)), g)
  {
    match t
    case Not(a) => LeavesOfSpecialized(a, g);
    case And(a, b) => LeavesOfSpecialized(a, g); LeavesOfSpecialized(b, g);
    case Or(a, b) => LeavesOfSpecialized(a, g); LeavesOfSpecialized(b, g);
    case If(a, b, c) =>
      LeavesOfSpecialized(a, g); LeavesOfSpecialized(b, g); LeavesOfSpecialized(c, g);
      LeavesOfIf(Specialize(a, g), Specialize(b, g), Specialize(c, g), g);
    case _ =>
  }

  lemma {:induction false} UnknownParts<V>(s: seq<V>, u: seq<V>, g: V -> Knowledge)
    requires AllUnknown(s, g) && AllUnknown(u, g)
    ensures AllUnknown(s + u, g)
  {}

  lemma {:induction false} LeavesOfPair<V>(a: Term<V>, b: Term<V>, g: V -> Knowledge)
    requires AllUnknown(Leaves(a), g) && AllUnknown(Leaves(b), g)
    ensures AllUnknown(Leaves(AndAlso(a, b)), g) && AllUnknown(Leaves(OrElse(a, b)), g)
  {
    assert AllUnknown([], g);
    UnknownParts(Leaves(a), Leaves(b), g);
    hide AllUnknown;
  }

  lemma {:induction false} LeavesOfIf<V>(a: Term<V>, b: Term<V>, c: Term<V>, g: V -> Knowledge)
    requires AllUnknown(Leaves(a), g) && AllUnknown(Leaves(b), g) && AllUnknown(Leaves(c), g)
    ensures AllUnknown(Leaves(MkIf(a, b, c)), g)
  {
    UnknownParts(Leaves(a), Leaves(b), g);
    UnknownParts(Leaves(a) + Leaves(b), Leaves(c), g);
    assert Leaves(Not(a)) == Leaves(a);
    assert Leaves(If(a, b, c)) == Leaves(a) + Leaves(b) + Leaves(c);
    hide AllUnknown, Leaves, AndAlso, OrElse;
    LeavesOfPair(a, c, g);
    LeavesOfPair(a, b, g);
    LeavesOfPair(Not(a), b, g);
    LeavesOfPair(Not(a), c, g);
  }

  lemma {:induction false} SpecializeLeavesUnknown<V>(t: Term<V>, g: V -> Knowledge)
    ensures AllUnknown(Values(Specialize(t, g)), g)
  {
    ValuesAreLeaves(Specialize(t, g));
    LeavesOfSpecialized(t, g);
  }

  predicate Agrees<V>(s: seq<V>, g: V -> Knowledge, f: V -> bool) {
    forall i :: 0 <= i < |s| ==> g(s[i]).Known? ==> g(s[i]).b == f(s[i])
  }

  lemma {:induction false} AgreesParts<V>(s: seq<V>, u: seq<V>, g: V -> Knowledge, f: V -> bool)
    ensures Agrees(s + u, g, f) <==> Agrees(s, g, f) && Agrees(u, g, f)
  {
    if Agrees(s + u, g, f) {
      assert forall i :: 0 <= i < |s| ==> s[i] == (s + u)[i];
      assert forall i :: 0 <= i < |u| ==> u[i] == (s + u)[|s| + i];
    }
  }

  lemma {:induction false} EvalOfSpecialized<V>(t: Term<V>, g: V -> Knowledge, f: V -> bool)
    requires Agrees(Leaves(t), g, f)
    ensures Eval(Specialize(t, g), f) == Eval(t, f)
  {
    match t
    case Base(v) => assert Leaves(t)[0] == v;
    case Not(a) =>
      EvalOfSpecialized(a, g, f);
      ConstructorsEval(Specialize(a, g), True, True, f);
    case And(a, b) =>
      AgreesParts(Leaves(a), Leaves(b), g, f);
      EvalOfSpecialized(a, g, f); EvalOfSpecialized(b, g, f);
      ConstructorsEval(Specialize(a, g), Specialize(b, g), True, f);
    case Or(a, b) =>
      AgreesParts(Leaves(a), Leaves(b), g, f);
      EvalOfSpecialized(a, g, f); EvalOfSpecialized(b, g, f);
      ConstructorsEval(Specialize(a, g), Specialize(b, g), True, f);
    case If(a, b, c) =>
      AgreesParts(Leaves(a) + Leaves(b), Leaves(c), g, f);
      AgreesParts(Leaves(a), Leaves(b), g, f);
      EvalOfSpecialized(a, g, f); EvalOfSpecialized(b, g, f); EvalOfSpecialized(c, g, f);
      ConstructorsEval(Specialize(a, g), Specialize(b, g), Specialize(c, g), f);
    case _ =>
  }

  /** Partial evaluation does not change the value under any assignment that agrees with what is known. */
  lemma {:induction false} SpecializePreservesEval<V>(t: Term<V>, g: V -> Knowledge, f: V -> bool)
    requires Agrees(Values(t), g, f)
    ensures Eval(t, f) == Eval(Specialize(t, g), f)
  {
    ValuesAreLeaves(t);
    EvalOfSpecialized(t, g, f);
  }
}
