/** Comparison functions in the style of OCaml's `compare`: the sign of the result orders the arguments. */
module Orders {

  /** Always true. Naming three keys asks the verifier to chain them by transitivity. */
  ghost predicate Chain<K>(a: K, b: K, c: K) { true }

  /** Antisymmetry of the sign and transitivity; reflexivity follows. Keys that
      compare to zero need not be equal. */
  ghost predicate TotalOrder<K(!new)>(cmp: (K, K) -> int) {
    && (forall a, b :: cmp(a, b) < 0 <==> cmp(b, a) > 0)
    && (forall a, b, c {:trigger Chain(a, b, c)} :: cmp(a, b) <= 0 && cmp(b, c) <= 0 ==> cmp(a, c) <= 0)
  }

  /** The strict order is transitive, also through an equivalence on one side. */
  lemma {:induction false} StrictTrans<K(!new)>(cmp: (K, K) -> int, a: K, b: K, c: K)
    requires TotalOrder(cmp)
    requires cmp(a, b) <= 0 && cmp(b, c) <= 0
    requires cmp(a, b) < 0 || cmp(b, c) < 0
    ensures cmp(a, c) < 0 && cmp(c, a) > 0
  {
    assert Chain(a, b, c) && Chain(b, c, a) && Chain(c, a, b);
  }

  /** Equivalent keys compare alike with every other key. */
  lemma {:induction false} SameClass<K(!new)>(cmp: (K, K) -> int, q: K, k: K, e: K)
    requires TotalOrder(cmp) && cmp(q, k) == 0
    ensures cmp(q, e) < 0 <==> cmp(k, e) < 0
    ensures cmp(q, e) > 0 <==> cmp(k, e) > 0
  {
    assert Chain(q, k, e) && Chain(k, q, e) && Chain(e, q, k) && Chain(e, k, q);
  }
}
