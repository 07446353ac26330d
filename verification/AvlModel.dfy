/** The AVL algorithms of avltree.ml on tree values. */
module AvlModel {
  import opened Options
  import opened SortedEntries

  // The heap code in module AvlHeap is proved to compute exactly these functions; here they are proved to keep the
  // tree balanced, and in module AvlCorrect to act on the in-order sequence as sorted insertion and deletion. A match
  // below lists no case for the source's `assert false` branches: that they cannot be reached is part of what is
  // verified.

  datatype Tree<+K, +V> =
    | Empty
    | Leaf(key: K, val: V)
    | Node(left: Tree<K, V>, key: K, val: V, height: int, right: Tree<K, V>)

  /** What `add` and `remove` give: the new tree, and the value of the reference `added` or `removed`. */
  datatype Change<+K, +V> = Change(tree: Tree<K, V>, done: bool)

  /** The stored height, as the source reads it. */
  function Height<K, V>(t: Tree<K, V>): int {
    match t
    case Empty => 0
    case Leaf(_, _) => 1
    case Node(_, _, _, h, _) => h
  }

  function Max(x: int, y: int): int { if x > y then x else y }

  /** The in-order sequence of bindings. */
  function Contents<K, V>(t: Tree<K, V>): Entries<K, V> {
    match t
    case Empty => []
    case Leaf(k, v) => [(k, v)]
    case Node(l, k, v, _, r) => Contents(l) + [(k, v)] + Contents(r)
  }

  /** Stored heights are exact and sibling heights differ by at most 2. */
  predicate Balanced<K, V>(t: Tree<K, V>) {
    t.Node? ==>
      && Balanced(t.left) && Balanced(t.right)
      && t.height == Max(Height(t.left), Height(t.right)) + 1
      && -2 <= Height(t.left) - Height(t.right) <= 2
  }

  /** Keys are ordered across whole subtrees. */
  ghost predicate SearchTree<K(!new), V>(t: Tree<K, V>, cmp: (K, K) -> int) {
    Sorted(Contents(t), cmp)
  }

  ghost predicate Valid<K(!new), V>(t: Tree<K, V>, cmp: (K, K) -> int) {
    Balanced(t) && SearchTree(t, cmp)
  }

  /** What `balance` accepts: balanced subtrees whose heights differ by at most 3. The root's own stored height is not
      read. */
  predicate Balanceable<K, V>(t: Tree<K, V>) {
    t.Node? ==> Balanced(t.left) && Balanced(t.right) && -3 <= Height(t.left) - Height(t.right) <= 3
  }

  function UpdateHeight<K, V>(n: Tree<K, V>): Tree<K, V>
    requires n.Node?
  {
    n.(height := Max(Height(n.left), Height(n.right)) + 1)
  }

  function Balance<K, V>(tree: Tree<K, V>): Tree<K, V>
    requires Balanceable(tree)
  {
    match tree
    case Empty => tree
    case Leaf(_, _) => tree
    case Node(left, _, _, _, right) =>
      HeightSign(left);
      HeightSign(right);
      if Height(left) > Height(right) + 2 then
        match left
        case Node(ll, _, _, _, lr) =>
          if Height(ll) >= Height(lr) then
            UpdateHeight(left.(right := UpdateHeight(tree.(left := lr))))
          else
            match lr
            case Node(a, _, _, _, b) =>
              UpdateHeight(lr.(left := UpdateHeight(left.(right := a)), right := UpdateHeight(tree.(left := b))))
      else if Height(right) > Height(left) + 2 then
        match right
        case Node(rl, _, _, _, rr) =>
          if Height(rr) >= Height(rl) then
            UpdateHeight(right.(left := UpdateHeight(tree.(right := rl))))
          else
            match rl
            case Node(a, _, _, _, b) =>
              UpdateHeight(rl.(left := UpdateHeight(tree.(right := a)), right := UpdateHeight(right.(left := b))))
      else UpdateHeight(tree)
  }

  /** Heights are never negative, and only a Node is taller than 1. */
  lemma {:induction false} HeightSign<K, V>(t: Tree<K, V>)
    requires Balanced(t)
    ensures Height(t) >= 0
    ensures Height(t) == 0 <==> t.Empty?
    ensures Height(t) >= 2 ==> t.Node?
  {
    if t.Node? {
      HeightSign(t.left);
      HeightSign(t.right);
    }
  }

  /** Single and double rotations restore balance and exact heights; the result is as tall as an exact
      root would have been, or one shorter. */
  lemma {:induction false} BalanceRestores<K, V>(t: Tree<K, V>)
    requires Balanceable(t)
    ensures Balanced(Balance(t))
    ensures t.Node? ==>
      var m := Max(Height(t.left), Height(t.right));
      m <= Height(Balance(t)) <= m + 1 &&
      (-2 <= Height(t.left) - Height(t.right) <= 2 ==> Balance(t) == UpdateHeight(t))
  {
    if t.Node? {
      if Height(t.left) > Height(t.right) + 2 {
        LeftHeavyRestores(t);
      } else if Height(t.right) > Height(t.left) + 2 {
        RightHeavyRestores(t);
      }
    }
  }

  lemma {:induction false} LeftHeavyRestores<K, V>(t: Tree<K, V>)
    requires t.Node? && Balanceable(t) && Height(t.left) > Height(t.right) + 2
    ensures Balanced(Balance(t))
    ensures Height(t.left) <= Height(Balance(t)) <= Height(t.left) + 1
  {
    HeightSign(t.left);
    HeightSign(t.right);
    var ll, lr := t.left.left, t.left.right;
    HeightSign(ll);
    HeightSign(lr);
    if Height(ll) >= Height(lr) {
      assert Balanced(UpdateHeight(t.(left := lr)));
    } else {
      assert Balanced(UpdateHeight(t.left.(right := lr.left)));
      assert Balanced(UpdateHeight(t.(left := lr.right)));
    }
  }

  lemma {:induction false} RightHeavyRestores<K, V>(t: Tree<K, V>)
    requires t.Node? && Balanceable(t) && Height(t.right) > Height(t.left) + 2
    ensures Balanced(Balance(t))
    ensures Height(t.right) <= Height(Balance(t)) <= Height(t.right) + 1
  {
    HeightSign(t.left);
    HeightSign(t.right);
    var rl, rr := t.right.left, t.right.right;
    HeightSign(rl);
    HeightSign(rr);
    if Height(rr) >= Height(rl) {
      assert Balanced(UpdateHeight(t.(right := rl)));
    } else {
      assert Balanced(UpdateHeight(t.(right := rl.left)));
      assert Balanced(UpdateHeight(t.right.(left := rl.right)));
    }
  }

  /** Balancing a balanced tree changes nothing. */
  lemma {:induction false} BalanceIdle<K, V>(t: Tree<K, V>)
    requires Balanced(t)
    ensures Balanceable(t) && Balance(t) == t
  {
    if t.Node? { BalanceRestores(t); }
  }

  /** Single and double rotations keep the in-order sequence. */
  lemma {:induction false} BalanceKeepsContents<K, V>(t: Tree<K, V>)
    requires Balanceable(t)
    ensures Contents(Balance(t)) == Contents(t)
  {
    if t.Node? {
      var l, e, r := t.left, [(t.key, t.val)], t.right;
      HeightSign(l);
      HeightSign(r);
      if Height(l) > Height(r) + 2 {
        var le := [(l.key, l.val)];
        if Height(l.left) >= Height(l.right) {
          Regroup(Contents(l.left), le, Contents(l.right), e, Contents(r));
        } else {
          HeightSign(l.left);
          HeightSign(l.right);
          var m := l.right;
          assert Contents(m) == Contents(m.left) + [(m.key, m.val)] + Contents(m.right);
          Regroup2(Contents(l.left), le, Contents(m.left), [(m.key, m.val)], Contents(m.right), e, Contents(r));
        }
      } else if Height(r) > Height(l) + 2 {
        var re := [(r.key, r.val)];
        if Height(r.right) >= Height(r.left) {
          Regroup(Contents(l), e, Contents(r.left), re, Contents(r.right));
        } else {
          HeightSign(r.left);
          HeightSign(r.right);
          var m := r.left;
          assert Contents(m) == Contents(m.left) + [(m.key, m.val)] + Contents(m.right);
          Regroup2(Contents(l), e, Contents(m.left), [(m.key, m.val)], Contents(m.right), re, Contents(r.right));
        }
      }
    }
  }

  lemma Regroup<T>(a: seq<T>, x: seq<T>, b: seq<T>, y: seq<T>, c: seq<T>)
    ensures (a + x + b) + y + c == a + x + (b + y + c)
  {}

  lemma {:induction false} Regroup2<T>(a: seq<T>, x: seq<T>, b: seq<T>, y: seq<T>, c: seq<T>, z: seq<T>, d: seq<T>)
    ensures (a + x + b) + y + (c + z + d) == (a + x + (b + y + c)) + z + d
    ensures (a + x + b) + y + (c + z + d) == a + x + ((b + y + c) + z + d)
  {
    Regroup(a + x + b, y, c, z, d);
    Regroup(a, x, b, y, c);
    Regroup(a, x, b, y, c + z + d);
    Regroup(b, y, c, z, d);
  }

  /** `set_left`: rebalance the new subtree, install it, refresh the node's height. */
  function SetLeft<K, V>(node: Tree<K, V>, tree: Tree<K, V>): Tree<K, V>
    requires node.Node? && Balanceable(tree)
  {
    UpdateHeight(node.(left := Balance(tree)))
  }

  function SetRight<K, V>(node: Tree<K, V>, tree: Tree<K, V>): Tree<K, V>
    requires node.Node? && Balanceable(tree)
  {
    UpdateHeight(node.(right := Balance(tree)))
  }

  /** One recursive change grew or shrank a tree: `r`, not yet rebalanced, replaces `t`. */
  predicate Step<K, V>(t: Tree<K, V>, r: Tree<K, V>, lo: int, hi: int) {
    Balanceable(r) && Height(t) + lo <= Height(Balance(r)) <= Height(t) + hi
  }

  /** The height part of `BalanceRestores`, about a node given by its parts. */
  lemma {:induction false} BalancedHeight<K, V>(n: Tree<K, V>)
    requires n.Node? && Balanceable(n)
    ensures var hl, hr := Height(n.left), Height(n.right);
            Max(hl, hr) <= Height(Balance(n)) <= Max(hl, hr) + 1 &&
            (-2 <= hl - hr <= 2 ==> Height(Balance(n)) == Max(hl, hr) + 1)
  {
    BalanceRestores(n);
  }

  /** Replacing a subtree of a balanced node by one whose rebalanced height moved by at most one leaves the node
      balanceable, and its own rebalanced height moves by at most one in the same direction. */
  lemma {:induction false} StepLeft<K, V>(t: Tree<K, V>, l: Tree<K, V>, lo: int, hi: int)
    requires t.Node? && Balanced(t)
    requires (lo == 0 && hi == 1) || (lo == -1 && hi == 0)
    requires Step(t.left, l, lo, hi)
    ensures Step(t, SetLeft(t, l), lo, hi)
  {
    BalanceRestores(l);
    var n := SetLeft(t, l);
    assert n.left == Balance(l) && n.right == t.right;
    BalancedHeight(n);
  }

  lemma {:induction false} StepRight<K, V>(t: Tree<K, V>, r: Tree<K, V>, lo: int, hi: int)
    requires t.Node? && Balanced(t)
    requires (lo == 0 && hi == 1) || (lo == -1 && hi == 0)
    requires Step(t.right, r, lo, hi)
    ensures Step(t, SetRight(t, r), lo, hi)
  {
    BalanceRestores(r);
    var n := SetRight(t, r);
    assert n.right == Balance(r) && n.left == t.left;
    BalancedHeight(n);
  }

  // ----- add -----

  /** The recursive part of `add`: the new tree, not yet rebalanced at its root, and whether a binding was added. */
  function AddRec<K, V>(t: Tree<K, V>, k: K, v: V, replace: bool, cmp: (K, K) -> int): (r: Change<K, V>)
    requires Balanced(t)
    ensures Step(t, r.tree, 0, 1)
    ensures !r.done ==> Balanced(r.tree) && Height(r.tree) == Height(t)
  {
    match t
    case Empty => Change(Leaf(k, v), true)
    case Leaf(k', v') =>
      // The comparison is reversed: the leaf becomes a child of the new node.
      var c := cmp(k', k);
      if c == 0 then Change(Leaf(k', if replace then v else v'), false)
      else if c < 0 then Change(Node(t, k, v, 2, Empty), true)
      else Change(Node(Empty, k, v, 2, t), true)
    case Node(left, k', v', h, right) =>
      var c := cmp(k, k');
      BalanceIdle(t);
      if c == 0 then
        var u := Node(left, k', if replace then v else v', h, right);
        BalanceIdle(u);
        Change(u, false)
      else if c < 0 then
        var Change(l, added) := AddRec(left, k, v, replace, cmp);
        StepLeft(t, l, 0, 1);
        if added then Change(SetLeft(t, l), true) else (BalanceIdle(l); Change(SetLeft(t, l), false))
      else
        var Change(r, added) := AddRec(right, k, v, replace, cmp);
        StepRight(t, r, 0, 1);
        if added then Change(SetRight(t, r), true) else (BalanceIdle(r); Change(SetRight(t, r), false))
  }

  /** `add`: the recursive part, rebalanced at the root only when a binding was added. */
  function Add<K, V>(t: Tree<K, V>, k: K, v: V, replace: bool, cmp: (K, K) -> int): Change<K, V>
    requires Balanced(t)
  {
    var Change(r, added) := AddRec(t, k, v, replace, cmp);
    if added then Change(Balance(r), true) else Change(r, false)
  }

  // ----- find -----

  /** `find` with its manual unrolling: two levels are compared before each recursive call. */
  function Find<K, V>(t: Tree<K, V>, k: K, cmp: (K, K) -> int): Option<V> {
    match t
    case Empty => None
    case Leaf(k', v) => if cmp(k, k') == 0 then Some(v) else None
    case Node(left, k', v, _, right) =>
      var c := cmp(k, k');
      if c == 0 then Some(v)
      else if c < 0 then
        match left
        case Empty => None
        case Leaf(k'', v') => if cmp(k, k'') == 0 then Some(v') else None
        case Node(l, k'', v', _, r) =>
          var c' := cmp(k, k'');
          if c' == 0 then Some(v') else Find(if c' < 0 then l else r, k, cmp)
      else
        match right
        case Empty => None
        case Leaf(k'', v') => if cmp(k, k'') == 0 then Some(v') else None
        case Node(l, k'', v', _, r) =>
          var c' := cmp(k, k'');
          if c' == 0 then Some(v') else Find(if c' < 0 then l else r, k, cmp)
  }

  // ----- remove -----

  /** The subtree at which the smallest key sits: a Leaf, or a Node with an empty left child. */
  function MinElt<K, V>(t: Tree<K, V>): (m: Tree<K, V>)
    ensures m.Empty? <==> t.Empty?
    ensures m.Node? ==> m.left.Empty?
  {
    if t.Node? && !t.left.Empty? then MinElt(t.left) else t
  }

  /** Unlink the smallest binding. The result is not yet rebalanced at its root. */
  function RemoveMinElt<K, V>(t: Tree<K, V>): (r: Tree<K, V>)
    requires Balanced(t) && !t.Empty?
    ensures Step(t, r, -1, 0)
  {
    match t
    case Leaf(_, _) => Empty
    case Node(Empty, _, _, _, right) => HeightSign(right); BalanceIdle(right); right
    case Node(Leaf(_, _), k, v, _, Empty) => Leaf(k, v)
    case Node(Leaf(_, _), _, _, _, _) => StepLeft(t, Empty, -1, 0); SetLeft(t, Empty)
    case Node(left, _, _, _, _) =>
      var l := RemoveMinElt(left);
      StepLeft(t, l, -1, 0);
      SetLeft(t, l)
  }

  /** Join two balanced siblings whose parent is gone. */
  function Merge<K, V>(t1: Tree<K, V>, t2: Tree<K, V>): (r: Tree<K, V>)
    requires Balanced(t1) && Balanced(t2) && -2 <= Height(t1) - Height(t2) <= 2
    ensures Balanceable(r)
    ensures Max(Height(t1), Height(t2)) <= Height(Balance(r)) <= Max(Height(t1), Height(t2)) + 1
  {
    HeightSign(t1);
    HeightSign(t2);
    if t1.Empty? then BalanceIdle(t2); t2
    else if t2.Empty? then BalanceIdle(t1); t1
    else
      var node := MinElt(t2);
      var rest := RemoveMinElt(t2);
      BalanceIdle(t1);
      BalanceRestores(rest);
      match node
      case Leaf(k, v) =>
        var t2' := Balance(rest);
        var r := Node(t1, k, v, Max(Height(t1), Height(t2')) + 1, t2');
        BalancedHeight(r);
        r
      case Node(_, _, _, _, _) =>
        var r := SetLeft(SetRight(node, rest), t1);
        BalancedHeight(r);
        r
  }

  function RemoveRec<K, V>(t: Tree<K, V>, k: K, cmp: (K, K) -> int): (r: Change<K, V>)
    requires Balanced(t)
    ensures Step(t, r.tree, -1, 0)
  {
    match t
    case Empty => Change(Empty, false)
    case Leaf(k', _) => if cmp(k, k') == 0 then Change(Empty, true) else Change(t, false)
    case Node(left, k', _, _, right) =>
      var c := cmp(k, k');
      if c == 0 then Change(Merge(left, right), true)
      else if c < 0 then
        var Change(l, removed) := RemoveRec(left, k, cmp);
        StepLeft(t, l, -1, 0);
        Change(SetLeft(t, l), removed)
      else
        var Change(r, removed) := RemoveRec(right, k, cmp);
        StepRight(t, r, -1, 0);
        Change(SetRight(t, r), removed)
  }

  /** `remove` at a node, step by step. */
  lemma RemoveRecNode<K, V>(t: Tree<K, V>, k: K, cmp: (K, K) -> int)
    requires Balanced(t) && t.Node?
    ensures var c := cmp(k, t.key);
            RemoveRec(t, k, cmp) ==
            if c == 0 then Change(Merge(t.left, t.right), true)
            else if c < 0 then var l := RemoveRec(t.left, k, cmp); Change(SetLeft(t, l.tree), l.done)
            else var r := RemoveRec(t.right, k, cmp); Change(SetRight(t, r.tree), r.done)
    ensures Balanced(t.left) && Balanced(t.right) && -2 <= Height(t.left) - Height(t.right) <= 2
    ensures Balanceable(RemoveRec(t.left, k, cmp).tree) && Balanceable(RemoveRec(t.right, k, cmp).tree)
  {}

  function Remove<K, V>(t: Tree<K, V>, k: K, cmp: (K, K) -> int): Change<K, V>
    requires Balanced(t)
  {
    var Change(r, removed) := RemoveRec(t, k, cmp);
    Change(Balance(r), removed)
  }
}
