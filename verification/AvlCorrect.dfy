/** The AVL functions on sorted sequences. */
module AvlCorrect {
  import opened AvlModel
  import opened Options
  import opened Orders
  import opened SortedEntries

  lemma {:induction false} AddRecContents<K(!new), V>(t: Tree<K, V>, k: K, v: V, replace: bool, cmp: (K, K) -> int)
    requires TotalOrder(cmp) && Valid(t, cmp)
    ensures var r := AddRec(t, k, v, replace, cmp);
            Contents(r.tree) == Insert(Contents(t), k, v, replace, cmp) &&
            (r.done <==> Lookup(Contents(t), k, cmp) == None)
  {
    match t
    case Empty =>
    case Leaf(k', v') =>
      assert Contents(t)[1..] == [];
      assert Lookup([], k, cmp) == Option<V>.None && Insert([], k, v, replace, cmp) == [(k, v)];
    case Node(left, k', v', _, right) =>
      var a, e, b := Contents(left), (k', v'), Contents(right);
      SortedSplit(a, e, b, cmp);
      LookupAround(a, e, b, k, cmp);
      var c := cmp(k, k');
      if c == 0 {
        InsertAt(a, e, b, k, v, replace, cmp);
      } else if c < 0 {
        AddRecContents(left, k, v, replace, cmp);
        BalanceKeepsContents(AddRec(left, k, v, replace, cmp).tree);
        InsertLeft(a, e, b, k, v, replace, cmp);
      } else {
        AddRecContents(right, k, v, replace, cmp);
        BalanceKeepsContents(AddRec(right, k, v, replace, cmp).tree);
        InsertRight(a, e, b, k, v, replace, cmp);
      }
  }

  /** From any valid tree, `add` returns a valid tree whose in-order sequence is the sorted insertion, and reports
      `added` exactly when the key was absent. */
  lemma {:induction false} AddCorrect<K(!new), V>(t: Tree<K, V>, k: K, v: V, replace: bool, cmp: (K, K) -> int)
    requires TotalOrder(cmp) && Valid(t, cmp)
    ensures var r := Add(t, k, v, replace, cmp);
            Valid(r.tree, cmp) &&
            Contents(r.tree) == Insert(Contents(t), k, v, replace, cmp) &&
            (r.done <==> Lookup(Contents(t), k, cmp) == None)
  {
    var Change(r, added) := AddRec(t, k, v, replace, cmp);
    AddRecContents(t, k, v, replace, cmp);
    InsertSorted(Contents(t), k, v, replace, cmp);
    BalanceRestores(r);
    BalanceKeepsContents(r);
  }

  /** One level of descent on a search tree narrows the lookup to one side. */
  lemma {:induction false} LookupDescends<K(!new), V>(t: Tree<K, V>, k: K, cmp: (K, K) -> int)
    requires TotalOrder(cmp) && SearchTree(t, cmp)
    ensures t.Empty? ==> Lookup(Contents(t), k, cmp) == None
    ensures t.Leaf? ==> Lookup(Contents(t), k, cmp) == if cmp(k, t.key) == 0 then Some(t.val) else None
    ensures t.Node? ==>
      SearchTree(t.left, cmp) && SearchTree(t.right, cmp) &&
      Lookup(Contents(t), k, cmp) ==
        if cmp(k, t.key) == 0 then Some(t.val)
        else Lookup(Contents(if cmp(k, t.key) < 0 then t.left else t.right), k, cmp)
  {
    if t.Leaf? {
      assert Contents(t)[1..] == [];
      assert Lookup([], k, cmp) == Option<V>.None;
    }
    if t.Node? {
      SortedSplit(Contents(t.left), (t.key, t.val), Contents(t.right), cmp);
      LookupAround(Contents(t.left), (t.key, t.val), Contents(t.right), k, cmp);
    }
  }

  /** The unrolled search finds exactly what a linear scan of the in-order sequence finds. */
  lemma {:induction false} FindCorrect<K(!new), V>(t: Tree<K, V>, k: K, cmp: (K, K) -> int)
    requires TotalOrder(cmp) && SearchTree(t, cmp)
    ensures Find(t, k, cmp) == Lookup(Contents(t), k, cmp)
  {
    LookupDescends(t, k, cmp);
    if t.Node? && cmp(k, t.key) != 0 {
      var c := if cmp(k, t.key) < 0 then t.left else t.right;
      LookupDescends(c, k, cmp);
      if c.Node? && cmp(k, c.key) != 0 {
        FindCorrect(if cmp(k, c.key) < 0 then c.left else c.right, k, cmp);
      }
    }
  }

  lemma {:induction false} SetLeftContents<K, V>(t: Tree<K, V>, l: Tree<K, V>)
    requires t.Node? && Balanceable(l)
    ensures Contents(SetLeft(t, l)) == Contents(l) + [(t.key, t.val)] + Contents(t.right)
  {
    BalanceKeepsContents(l);
    hide Balance, Balanceable;
  }

  /** Below the root, `remove_min_elt` changes the left part alone. */
  lemma {:induction false} RemoveMinOnLeft<K, V>(t: Tree<K, V>)
    requires Balanced(t) && t.Node? && !t.left.Empty?
    ensures MinElt(t) == MinElt(t.left)
    ensures Contents(RemoveMinElt(t)) == Contents(RemoveMinElt(t.left)) + [(t.key, t.val)] + Contents(t.right)
  {
    assert Balanceable(RemoveMinElt(t.left));
    SetLeftContents(t, RemoveMinElt(t.left));
    hide Balance, Balanceable, Step, SetLeft;
    if t.left.Leaf? { assert RemoveMinElt(t.left) == Empty; }
  }

  lemma {:induction false} RemoveMinAtEdge<K, V>(t: Tree<K, V>)
    requires Balanced(t) && (t.Leaf? || (t.Node? && t.left.Empty?))
    ensures MinElt(t) == t && RemoveMinElt(t) == if t.Leaf? then Empty else t.right
  {
    hide Balance, Balanceable, Step;
  }

  lemma FirstApart<T>(a: seq<T>, b: seq<T>, c: seq<T>, d: seq<T>)
    ensures (a + b) + c + d == a + (b + c + d)
  {}

  /** `min_elt` and `remove_min_elt` split off the first binding of the in-order sequence. */
  lemma {:induction false} RemoveMinContents<K, V>(t: Tree<K, V>)
    requires Balanced(t) && !t.Empty?
    ensures var m := MinElt(t); Contents(t) == [(m.key, m.val)] + Contents(RemoveMinElt(t))
  {
    hide Balance, Balanceable, RemoveMinElt, MinElt, SetLeft, Step, Height;
    if t.Node? && !t.left.Empty? {
      RemoveMinOnLeft(t);
      RemoveMinContents(t.left);
      hide Balanced;
      var m, l := MinElt(t), Contents(RemoveMinElt(t.left));
      assert Contents(t) == Contents(t.left) + [(t.key, t.val)] + Contents(t.right);
      hide Contents;
      FirstApart([(m.key, m.val)], l, [(t.key, t.val)], Contents(t.right));
    } else {
      RemoveMinAtEdge(t);
    }
  }

  lemma {:induction false} MergeContents<K, V>(t1: Tree<K, V>, t2: Tree<K, V>)
    requires Balanced(t1) && Balanced(t2) && -2 <= Height(t1) - Height(t2) <= 2
    ensures Contents(Merge(t1, t2)) == Contents(t1) + Contents(t2)
  {
    hide Balance, Balanceable;
    if !t1.Empty? && !t2.Empty? {
      RemoveMinContents(t2);
      var m, rest := MinElt(t2), RemoveMinElt(t2);
      BalanceKeepsContents(rest);
      BalanceKeepsContents(t1);
      BalanceIdle(t1);
      assert Contents(t1) + ([(m.key, m.val)] + Contents(rest)) == Contents(t1) + [(m.key, m.val)] + Contents(rest);
    }
  }

  lemma {:induction false} RemoveRecContents<K(!new), V>(t: Tree<K, V>, k: K, cmp: (K, K) -> int)
    requires TotalOrder(cmp) && Valid(t, cmp)
    ensures var r := RemoveRec(t, k, cmp);
            Contents(r.tree) == Delete(Contents(t), k, cmp) &&
            (r.done <==> Lookup(Contents(t), k, cmp) != None)
  {
    match t
    case Empty =>
    case Leaf(k', v') =>
      assert Contents(t)[1..] == [];
      assert Lookup([], k, cmp) == Option<V>.None && Delete([], k, cmp) == Contents<K, V>(Empty);
    case Node(left, k', v', _, right) =>
      var a, e, b := Contents(left), (k', v'), Contents(right);
      SortedSplit(a, e, b, cmp);
      LookupAround(a, e, b, k, cmp);
      DeleteAround(a, e, b, k, cmp);
      var c := cmp(k, k');
      if c == 0 {
        MergeContents(left, right);
      } else if c < 0 {
        RemoveRecContents(left, k, cmp);
        BalanceKeepsContents(RemoveRec(left, k, cmp).tree);
      } else {
        RemoveRecContents(right, k, cmp);
        BalanceKeepsContents(RemoveRec(right, k, cmp).tree);
      }
  }

  /** From any valid tree, `remove` returns a valid tree whose in-order sequence lacks exactly the key, and reports
      `removed` exactly when the key was present. */
  lemma {:induction false} RemoveCorrect<K(!new), V>(t: Tree<K, V>, k: K, cmp: (K, K) -> int)
    requires TotalOrder(cmp) && Valid(t, cmp)
    ensures var r := Remove(t, k, cmp);
            Valid(r.tree, cmp) &&
            Contents(r.tree) == Delete(Contents(t), k, cmp) &&
            (r.done <==> Lookup(Contents(t), k, cmp) != None)
  {
    var Change(r, removed) := RemoveRec(t, k, cmp);
    RemoveRecContents(t, k, cmp);
    DeleteSorted(Contents(t), k, cmp);
    BalanceRestores(r);
    BalanceKeepsContents(r);
  }
}
