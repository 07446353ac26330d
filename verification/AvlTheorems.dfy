/** What the AVL functions promise together. */
module AvlTheorems {
  import opened Options
  import opened Orders
  import opened SortedEntries
  import opened AvlCorrect
  import opened AvlModel
  import opened Bits

  // Every run refines a finite map, height is logarithmic, the special-cased fold is the in-order fold, and how the
  // source's own `invariant` check relates.

  // ----- runs -----

  datatype Op<+K, +V> = Put(key: K, val: V, replace: bool) | Drop(key: K)

  /** The tree after a sequence of operations on the empty tree. */
  function Run<K(!new), V>(ops: seq<Op<K, V>>, cmp: (K, K) -> int): (t: Tree<K, V>)
    ensures Balanced(t)
  {
    if ops == [] then Empty else
      var t := Run(ops[..|ops| - 1], cmp);
      match ops[|ops| - 1]
      case Put(k, v, replace) =>
        var Change(r, added) := AddRec(t, k, v, replace, cmp);
        BalanceRestores(r);
        Add(t, k, v, replace, cmp).tree
      case Drop(k) =>
        BalanceRestores(RemoveRec(t, k, cmp).tree);
        Remove(t, k, cmp).tree
  }

  /** The finite map those operations describe, without any tree: the last effective operation on the key decides. */
  function Meaning<K, V>(ops: seq<Op<K, V>>, q: K, cmp: (K, K) -> int): Option<V> {
    if ops == [] then None else
      var before := Meaning(ops[..|ops| - 1], q, cmp);
      match ops[|ops| - 1]
      case Put(k, v, replace) => if cmp(q, k) == 0 && (replace || before == None) then Some(v) else before
      case Drop(k) => if cmp(q, k) == 0 then None else before
  }

  /** After every run the tree is valid and `find` answers for every key what the run says. */
  lemma {:induction false} RunRefinesMap<K(!new), V>(ops: seq<Op<K, V>>, q: K, cmp: (K, K) -> int)
    requires TotalOrder(cmp)
    ensures Valid(Run(ops, cmp), cmp)
    ensures Find(Run(ops, cmp), q, cmp) == Meaning(ops, q, cmp)
  {
    if ops != [] {
      var before := ops[..|ops| - 1];
      var t := Run(before, cmp);
      RunRefinesMap(before, q, cmp);
      FindCorrect(t, q, cmp);
      match ops[|ops| - 1]
      case Put(k, v, replace) =>
        AddCorrect(t, k, v, replace, cmp);
        InsertIsMapUpdate(Contents(t), k, v, replace, q, cmp);
        if cmp(q, k) == 0 { LookupOfClass(Contents(t), q, k, cmp); }
      case Drop(k) =>
        RemoveCorrect(t, k, cmp);
        DeleteIsMapRemove(Contents(t), k, q, cmp);
    }
    FindCorrect(Run(ops, cmp), q, cmp);
  }

  lemma {:induction false} LookupOfClass<K(!new), V>(s: Entries<K, V>, q: K, k: K, cmp: (K, K) -> int)
    requires TotalOrder(cmp) && cmp(q, k) == 0
    ensures Lookup(s, q, cmp) == Lookup(s, k, cmp)
  {
    if s != [] {
      SameClass(cmp, q, k, s[0].0);
      LookupOfClass(s[1..], q, k, cmp);
    }
  }

  // ----- height -----

  /** The fewest bindings a balanced tree of height `h` can hold. */
  function MinSize(h: int): nat
    decreases h
  {
    if h <= 0 then 0 else if h == 1 then 1 else MinSize(h - 1) + MinSize(h - 3) + 1
  }

  lemma {:induction false} MinSizeGrows(h: int)
    ensures MinSize(h) <= MinSize(h + 1)
    decreases h
  {
    if h > 1 {
      MinSizeGrows(h - 1);
      MinSizeGrows(h - 3);
    }
  }

  lemma {:induction false} MinSizeOfPair(low: int, high: int)
    requires 0 <= low <= high <= low + 2
    ensures MinSize(high + 1) <= MinSize(high) + MinSize(low) + 1
  {
    MinSizeGrows(high - 2);
    MinSizeGrows(high - 1);
  }

  lemma {:induction false} SizeAtLeast<K, V>(t: Tree<K, V>)
    requires Balanced(t)
    ensures |Contents(t)| >= MinSize(Height(t))
  {
    if t.Node? {
      SizeAtLeast(t.left);
      SizeAtLeast(t.right);
      HeightSign(t.left);
      HeightSign(t.right);
      var hl, hr := Height(t.left), Height(t.right);
      if hl <= hr { MinSizeOfPair(hl, hr); } else { MinSizeOfPair(hr, hl); }
      assert |Contents(t)| == |Contents(t.left)| + 1 + |Contents(t.right)|;
    }
  }

  /** Two more levels at least double the smallest tree. */
  lemma {:induction false} MinSizeDoubles(h: int)
    requires h >= 1
    ensures MinSize(h) >= Pow2(h / 2)
    decreases h
  {
    if h >= 5 {
      MinSizeDoubles(h - 2);
      assert MinSize(h) == MinSize(h - 1) + MinSize(h - 3) + 1;
      assert MinSize(h - 1) == MinSize(h - 2) + MinSize(h - 4) + 1;
      assert MinSize(h - 2) == MinSize(h - 3) + MinSize(h - 5) + 1;
      MinSizeGrows(h - 5);
      assert h / 2 == (h - 2) / 2 + 1;
    } else {
      assert MinSize(0) == 0 && MinSize(1) == 1 && MinSize(2) == 2 && MinSize(3) == 3 && MinSize(4) == 5;
      assert Pow2(0) == 1 && Pow2(1) == 2 && Pow2(2) == 4;
    }
  }

  /** A balanced tree of height h >= 1 holds at least 2^(h/2) bindings: height is logarithmic in size. */
  lemma {:induction false} HeightIsLogarithmic<K, V>(t: Tree<K, V>)
    requires Balanced(t) && Height(t) >= 1
    ensures |Contents(t)| >= Pow2(Height(t) / 2)
  {
    SizeAtLeast(t);
    MinSizeDoubles(Height(t));
  }

  /** The longest path to a leaf, counted on the structure and not read from any stored field. */
  function Depth<K, V>(t: Tree<K, V>): nat {
    match t
    case Empty => 0
    case Leaf(_, _) => 1
    case Node(l, _, _, _, r) => 1 + if Depth(l) > Depth(r) then Depth(l) else Depth(r)
  }

  /** The stored heights of a balanced tree are its real depths. */
  lemma {:induction false} HeightIsDepth<K, V>(t: Tree<K, V>)
    requires Balanced(t)
    ensures Height(t) == Depth(t)
  {
    if t.Node? {
      HeightIsDepth(t.left);
      HeightIsDepth(t.right);
    }
  }

  // ----- fold -----

  /** `fold` with the source's cases, in the source's order. */
  function Fold<K, V, A>(t: Tree<K, V>, init: A, f: (K, V, A) -> A): A {
    match t
    case Empty => init
    case Leaf(key, data) => f(key, data, init)
    case Node(Leaf(lkey, ldata), key, data, _, Leaf(rkey, rdata)) =>
      f(rkey, rdata, f(key, data, f(lkey, ldata, init)))
    case Node(Leaf(lkey, ldata), key, data, _, Empty) => f(key, data, f(lkey, ldata, init))
    case Node(Empty, key, data, _, Leaf(rkey, rdata)) => f(rkey, rdata, f(key, data, init))
    case Node(left, key, data, _, Leaf(rkey, rdata)) => f(rkey, rdata, f(key, data, Fold(left, init, f)))
    case Node(Leaf(lkey, ldata), key, data, _, right) => Fold(right, f(key, data, f(lkey, ldata, init)), f)
    case Node(left, key, data, _, right) => Fold(right, f(key, data, Fold(left, init, f)), f)
  }

  function FoldEntries<K, V, A>(s: Entries<K, V>, init: A, f: (K, V, A) -> A): A {
    if s == [] then init else FoldEntries(s[1..], f(s[0].0, s[0].1, init), f)
  }

  lemma {:induction false} FoldEntriesAppend<K, V, A>(a: Entries<K, V>, b: Entries<K, V>, init: A, f: (K, V, A) -> A)
    ensures FoldEntries(a + b, init, f) == FoldEntries(b, FoldEntries(a, init, f), f)
  {
    if a == [] {
      assert a + b == b;
    } else {
      assert (a + b)[1..] == a[1..] + b;
      FoldEntriesAppend(a[1..], b, f(a[0].0, a[0].1, init), f);
    }
  }

  lemma {:induction false} FoldEntriesNode<K, V, A>(l: Entries<K, V>, e: (K, V), r: Entries<K, V>, init: A,
          f: (K, V, A) -> A)
    ensures FoldEntries(l + [e] + r, init, f) == FoldEntries(r, f(e.0, e.1, FoldEntries(l, init, f)), f)
  {
    FoldEntriesAppend(l + [e], r, init, f);
    FoldEntriesAppend(l, [e], init, f);
    assert [e][1..] == [];
    assert FoldEntries([e], FoldEntries(l, init, f), f) == f(e.0, e.1, FoldEntries(l, init, f));
  }

  lemma {:induction false} FoldEntriesOne<K, V, A>(e: (K, V), init: A, f: (K, V, A) -> A)
    ensures FoldEntries([e], init, f) == f(e.0, e.1, init)
  {
    assert [e][1..] == [];
  }

  /** Every special case agrees with a left fold over the in-order sequence. */
  lemma {:induction false} FoldIsInOrder<K, V, A>(t: Tree<K, V>, init: A, f: (K, V, A) -> A)
    ensures Fold(t, init, f) == FoldEntries(Contents(t), init, f)
  {
    if t.Leaf? { FoldEntriesOne((t.key, t.val), init, f); }
    if t.Node? {
      FoldEntriesNode(Contents(t.left), (t.key, t.val), Contents(t.right), init, f);
      FoldIsInOrder(t.left, init, f);
      FoldIsInOrder(t.right, f(t.key, t.val, Fold(t.left, init, f)), f);
    }
  }

  lemma {:induction false} EntriesCollect<K, V>(s: Entries<K, V>, init: Entries<K, V>)
    ensures FoldEntries(s, init, (k, v, acc) => acc + [(k, v)]) == init + s
    decreases s
  {
    if s != [] {
      EntriesCollect(s[1..], init + [s[0]]);
      assert s == [(s[0].0, s[0].1)] + s[1..];
    }
  }

  /** A fold that collects finds the bindings of the tree in the order of their keys. */
  lemma {:induction false} FoldCollects<K, V>(t: Tree<K, V>)
    ensures Fold(t, [], (k, v, acc) => acc + [(k, v)]) == Contents(t)
  {
    FoldIsInOrder(t, [], (k, v, acc) => acc + [(k, v)]);
    EntriesCollect(Contents(t), []);
  }

  // ----- the source's invariant check -----

  /** The key test of `invariant`: it compares a node with its children only. */
  predicate LocallyOrdered<K, V>(t: Tree<K, V>, cmp: (K, K) -> int) {
    t.Node? ==>
      && LocallyOrdered(t.left, cmp) && LocallyOrdered(t.right, cmp)
      && (!t.left.Empty? ==> cmp(t.left.key, t.key) < 0)
      && (!t.right.Empty? ==> cmp(t.right.key, t.key) > 0)
  }

  /** Every valid tree passes the source's `invariant`. */
  lemma {:induction false} ValidPassesInvariant<K(!new), V>(t: Tree<K, V>, cmp: (K, K) -> int)
    requires TotalOrder(cmp) && Valid(t, cmp)
    ensures LocallyOrdered(t, cmp)
  {
    if t.Node? {
      SortedSplit(Contents(t.left), (t.key, t.val), Contents(t.right), cmp);
      ValidPassesInvariant(t.left, cmp);
      ValidPassesInvariant(t.right, cmp);
      RootKeyOccurs(t.left);
      RootKeyOccurs(t.right);
    }
  }

  lemma {:induction false} RootKeyOccurs<K, V>(t: Tree<K, V>)
    ensures !t.Empty? ==> exists i :: 0 <= i < |Contents(t)| && Contents(t)[i].0 == t.key
  {
    if t.Node? {
      assert Contents(t)[|Contents(t.left)|] == (t.key, t.val);
    } else if t.Leaf? {
      assert Contents(t)[0].0 == t.key;
    }
  }

  // ----- what the check leaves open -----

  /** The key farthest right. */
  function MaxKey<K, V>(t: Tree<K, V>): K
    requires !t.Empty?
  {
    if t.Leaf? || t.right.Empty? then t.key else MaxKey(t.right)
  }

  /** The key farthest left. */
  function MinKey<K, V>(t: Tree<K, V>): K
    requires !t.Empty?
  {
    if t.Leaf? || t.left.Empty? then t.key else MinKey(t.left)
  }

  /** The key test with the in-order neighbours in place of the children. */
  predicate NeighboursOrdered<K, V>(t: Tree<K, V>, cmp: (K, K) -> int) {
    t.Node? ==>
      && NeighboursOrdered(t.left, cmp) && NeighboursOrdered(t.right, cmp)
      && (!t.left.Empty? ==> cmp(MaxKey(t.left), t.key) < 0)
      && (!t.right.Empty? ==> cmp(MinKey(t.right), t.key) > 0)
  }

  lemma {:induction false} EndsOfContents<K, V>(t: Tree<K, V>)
    requires !t.Empty?
    ensures var s := Contents(t); s != [] && s[0].0 == MinKey(t) && s[|s| - 1].0 == MaxKey(t)
  {
    if t.Node? {
      if !t.left.Empty? { EndsOfContents(t.left); }
      if !t.right.Empty? { EndsOfContents(t.right); }
    }
  }

  /** Sorted parts around a pivot that lies between their ends make a sorted whole. */
  lemma {:induction false} SortedJoin<K(!new), V>(a: Entries<K, V>, e: (K, V), b: Entries<K, V>, cmp: (K, K) -> int)
    requires TotalOrder(cmp) && Sorted(a, cmp) && Sorted(b, cmp)
    requires a != [] ==> cmp(a[|a| - 1].0, e.0) < 0
    requires b != [] ==> cmp(b[0].0, e.0) > 0
    ensures Sorted(a + [e] + b, cmp)
  {
    forall i | 0 <= i < |a| ensures cmp(a[i].0, e.0) < 0 {
      if i < |a| - 1 { StrictTrans(cmp, a[i].0, a[|a| - 1].0, e.0); }
    }
    forall i | 0 <= i < |b| ensures cmp(e.0, b[i].0) < 0 {
      if i > 0 { StrictTrans(cmp, e.0, b[0].0, b[i].0); }
    }
    forall i, j | 0 <= i < |a| && 0 <= j < |b| ensures cmp(a[i].0, b[j].0) < 0 {
      StrictTrans(cmp, a[i].0, e.0, b[j].0);
    }
  }

  /** A tree is a search tree exactly when every node lies between the ends of its subtrees. */
  lemma {:induction false} SearchTreeIffNeighboursOrdered<K(!new), V>(t: Tree<K, V>, cmp: (K, K) -> int)
    requires TotalOrder(cmp)
    ensures SearchTree(t, cmp) <==> NeighboursOrdered(t, cmp)
  {
    if t.Node? {
      var l, e, r := Contents(t.left), (t.key, t.val), Contents(t.right);
      SearchTreeIffNeighboursOrdered(t.left, cmp);
      SearchTreeIffNeighboursOrdered(t.right, cmp);
      if !t.left.Empty? { EndsOfContents(t.left); }
      if !t.right.Empty? { EndsOfContents(t.right); }
      if SearchTree(t, cmp) { SortedSplit(l, e, r, cmp); }
      if NeighboursOrdered(t, cmp) { SortedJoin(l, e, r, cmp); }
    }
  }

  /** Up to height 2, children are neighbours, and the check suffices. */
  lemma {:induction false} InvariantSufficesUpToTwo<K(!new), V>(t: Tree<K, V>, cmp: (K, K) -> int)
    requires TotalOrder(cmp) && Balanced(t) && LocallyOrdered(t, cmp) && Height(t) <= 2
    ensures SearchTree(t, cmp)
  {
    if t.Node? {
      LowTree(t.left, cmp);
      LowTree(t.right, cmp);
    }
    SearchTreeIffNeighboursOrdered(t, cmp);
  }

  lemma {:induction false} LowTree<K, V>(t: Tree<K, V>, cmp: (K, K) -> int)
    requires Balanced(t) && Height(t) <= 1
    ensures NeighboursOrdered(t, cmp) && (!t.Empty? ==> MaxKey(t) == t.key && MinKey(t) == t.key)
  {
    if t.Node? {
      HeightSign(t.left);
      HeightSign(t.right);
      assert NeighboursOrdered(t.left, cmp) && NeighboursOrdered(t.right, cmp);
    }
  }

  function IntCompare(a: int, b: int): int { a - b }

  /** A full tree whose keys differ by one from child to child, so that from height 3 on they repeat. */
  function Zigzag(h: nat, k: int): Tree<int, bool> {
    if h == 0 then Empty else Node(Zigzag(h - 1, k - 1), k, true, h, Zigzag(h - 1, k + 1))
  }

  lemma {:induction false} ZigzagPasses(h: nat, k: int)
    ensures var t := Zigzag(h, k); Height(t) == h && Balanced(t) && LocallyOrdered(t, IntCompare)
    ensures h > 0 ==> Zigzag(h, k).Node? && Zigzag(h, k).key == k
  {
    if h > 0 {
      ZigzagPasses(h - 1, k - 1);
      ZigzagPasses(h - 1, k + 1);
    }
  }

  lemma {:induction false} ZigzagReaches(h: nat, k: int)
    requires h > 0
    ensures MaxKey(Zigzag(h, k)) == k + h - 1
  {
    if h > 1 {
      ZigzagReaches(h - 1, k + 1);
      assert Zigzag(h - 1, k + 1).Node?;
    }
  }

  /** The heights at which passing `invariant` implies being a search tree are 0, 1 and 2. */
  lemma {:induction false} InvariantSufficesIffLow(h: nat)
    ensures (forall t: Tree<int, bool> :: Balanced(t) && LocallyOrdered(t, IntCompare) && Height(t) == h ==>
              SearchTree(t, IntCompare)) <==> h <= 2
  {
    IntOrder();
    if h <= 2 {
      forall t: Tree<int, bool> | Balanced(t) && LocallyOrdered(t, IntCompare) && Height(t) == h
        ensures SearchTree(t, IntCompare)
      {
        InvariantSufficesUpToTwo(t, IntCompare);
      }
    } else {
      ZigzagPasses(h, 0);
      ZigzagReaches(h - 1, -1);
      var t := Zigzag(h, 0);
      assert t.left == Zigzag(h - 1, -1) && t.left.Node?;
      SearchTreeIffNeighboursOrdered(t, IntCompare);
    }
  }

  lemma {:induction false} IntOrder()
    ensures TotalOrder(IntCompare)
  {
    forall a: int, b: int, c: int | IntCompare(a, b) <= 0 && IntCompare(b, c) <= 0 ensures IntCompare(a, c) <= 0 {}
  }

  /** The converse fails: this tree passes `invariant`, binds 9, and `find` does not see it. */
  lemma {:induction false} InvariantIsNotOrdering()
    ensures exists t: Tree<int, bool> ::
              && Balanced(t) && LocallyOrdered(t, IntCompare)
              && (9, true) in Contents(t) && Find(t, 9, IntCompare) == None
  {
    var low := Node(Empty, 3, true, 2, Leaf(9, true));
    var t := Node(low, 5, true, 3, Leaf(7, true));
    assert Balanced(low) && LocallyOrdered(low, IntCompare);
    assert Contents(low) == [(3, true), (9, true)];
    assert Contents(t) == [(3, true), (9, true), (5, true), (7, true)];
    assert (9, true) in Contents(t);
    assert Find(t, 9, IntCompare) == None;
  }
}
