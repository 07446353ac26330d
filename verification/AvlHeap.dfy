/** The AVL operations on heap blocks that are overwritten in place. A block is what the source's constructors allocate;
    Empty is null. Ghost parameters carry the tree a pointer stands for and the blocks it is made of. */
module AvlHeap {
  import opened Options
  import opened Orders
  import opened SortedEntries
  import Model = AvlModel
  import opened AvlCorrect
  import opened AvlModel

  /** An output reference such as `added` and `removed`. */
  class BoolRef {
    var contents: bool
    constructor (b: bool)
      ensures contents == b
    {
      contents := b;
    }

    /** `:=` */
    method Assign(b: bool)
      modifies this
      ensures contents == b
    {
      contents := b;
    }
  }

  /** A heap block tagged Leaf or Node; the fields of the other tag are unused. */
  class Block<K(!new), V> {
    const leaf: bool
    const key: K
    var val: V
    var left: Block?<K, V>
    var height: int
    var right: Block?<K, V>

    constructor Leaf(k: K, v: V)
      ensures leaf && key == k && val == v
    {
      leaf, key, val, left, height, right := true, k, v, null, 1, null;
    }

    constructor Node(l: Block?<K, V>, k: K, v: V, h: int, r: Block?<K, V>)
      ensures !leaf && key == k && val == v && left == l && height == h && right == r
    {
      leaf, key, val, left, height, right := false, k, v, l, h, r;
    }
  }

  /** The blocks of a tree, arranged as the tree is. */
  datatype Refs<K(!new), V> = Nil | At(root: Block<K, V>, left: Refs<K, V>, right: Refs<K, V>)

  ghost function Blocks<K(!new), V>(f: Refs<K, V>): set<Block<K, V>> {
    if f.Nil? then {} else {f.root} + Blocks(f.left) + Blocks(f.right)
  }

  function Root<K(!new), V>(f: Refs<K, V>): Block?<K, V> {
    if f.Nil? then null else f.root
  }

  /** Tree `t` is laid out in the heap on the distinct blocks `f`. */
  ghost predicate Holds<K(!new), V>(f: Refs<K, V>, t: Tree<K, V>)
    reads Blocks(f)
    decreases t
  {
    match t
    case Empty => f.Nil?
    case Leaf(k, v) =>
      f.At? && f.left.Nil? && f.right.Nil? && f.root.leaf && f.root.key == k && f.root.val == v
    case Node(l, k, v, h, r) =>
      && f.At? && !f.root.leaf && f.root.key == k && f.root.val == v && f.root.height == h
      && f.root.left == Root(f.left) && f.root.right == Root(f.right)
      && f.root !in Blocks(f.left) && f.root !in Blocks(f.right) && Blocks(f.left) !! Blocks(f.right)
      && Holds(f.left, l) && Holds(f.right, r)
  }

  /** `height`. */
  function HeightOf<K(!new), V>(p: Block?<K, V>): int
    reads p
  {
    if p == null then 0 else if p.leaf then 1 else p.height
  }

  lemma HeightHeld<K(!new), V>(f: Refs<K, V>, t: Tree<K, V>)
    requires Holds(f, t)
    ensures HeightOf(Root(f)) == Height(t)
  {}

  /** One level of `Holds`: the children are held apart from each other and from the root. */
  lemma Parts<K(!new), V>(f: Refs<K, V>, t: Tree<K, V>)
    requires Holds(f, t) && t.Node?
    ensures f.At? && !f.root.leaf && f.root.key == t.key && f.root.val == t.val && f.root.height == t.height
    ensures f.root.left == Root(f.left) && f.root.right == Root(f.right)
    ensures f.root !in Blocks(f.left) && f.root !in Blocks(f.right) && Blocks(f.left) !! Blocks(f.right)
    ensures Holds(f.left, t.left) && Holds(f.right, t.right)
    ensures Blocks(f) == {f.root} + Blocks(f.left) + Blocks(f.right)
    ensures allocated(Blocks(f.left)) && allocated(Blocks(f.right))
  {}

  /** The three nodes and four subtrees a double rotation moves, pairwise apart. */
  lemma {:induction false} DoubleParts<K(!new), V>(f: Refs<K, V>, t: Tree<K, V>, fromLeft: bool)
    requires Holds(f, t) && t.Node?
    requires if fromLeft then t.left.Node? && t.left.right.Node? else t.right.Node? && t.right.left.Node?
    ensures f.At? && if fromLeft then f.left.At? && f.left.right.At? else f.right.At? && f.right.left.At?
    ensures
      var (fc, tc) := if fromLeft then (f.left, t.left) else (f.right, t.right);
      var (fm, tm) := if fromLeft then (fc.right, tc.right) else (fc.left, tc.left);
      var (fo, to) := if fromLeft then (fc.left, tc.left) else (fc.right, tc.right);
      var (fs, ts) := if fromLeft then (f.right, t.right) else (f.left, t.left);
      && f.root.left == Root(f.left) && f.root.right == Root(f.right) && !f.root.leaf && f.root.key == t.key &&
        f.root.val == t.val && f.root.height == t.height
      && fc.root.left == Root(fc.left) && fc.root.right == Root(fc.right) && !fc.root.leaf && fc.root.key == tc.key &&
        fc.root.val == tc.val && fc.root.height == tc.height
      && fm.root.left == Root(fm.left) && fm.root.right == Root(fm.right) && !fm.root.leaf && fm.root.key == tm.key &&
        fm.root.val == tm.val && fm.root.height == tm.height
      && f.root != fc.root && f.root != fm.root && fc.root != fm.root
      && Holds(fo, to) && Holds(fm.left, tm.left) && Holds(fm.right, tm.right) && Holds(fs, ts)
      && Blocks(f) == {f.root, fc.root, fm.root} + Blocks(fo) + Blocks(fm.left) + Blocks(fm.right) + Blocks(fs)
      && {f.root, fc.root, fm.root} !! Blocks(fo) !! Blocks(fm.left) !! Blocks(fm.right) !! Blocks(fs)
      && allocated(Blocks(fo)) && allocated(Blocks(fm.left)) && allocated(Blocks(fm.right)) && allocated(Blocks(fs))
  {
    hide Holds, Blocks;
    Parts(f, t);
    if fromLeft {
      Parts(f.left, t.left);
      Parts(f.left.right, t.left.right);
    } else {
      Parts(f.right, t.right);
      Parts(f.right.left, t.right.left);
    }
  }

  /** A node assembled from two separate children. */
  lemma Close<K(!new), V>(p: Block<K, V>, fl: Refs<K, V>, tl: Tree<K, V>, fr: Refs<K, V>, tr: Tree<K, V>)
    requires !p.leaf && p.left == Root(fl) && p.right == Root(fr)
    requires p !in Blocks(fl) && p !in Blocks(fr) && Blocks(fl) !! Blocks(fr)
    requires Holds(fl, tl) && Holds(fr, tr)
    ensures Holds(At(p, fl, fr), Tree.Node(tl, p.key, p.val, p.height, tr))
    ensures Blocks(At(p, fl, fr)) == {p} + Blocks(fl) + Blocks(fr)
  {}

  // The `Update` functions: each demands the right tag, where the source would `assert false`.

  method UpdateLeft<K(!new), V>(n: Block<K, V>, v: Block?<K, V>)
    requires !n.leaf
    modifies n`left
    ensures n.left == v
  {
    n.left := v;
  }

  method UpdateRight<K(!new), V>(n: Block<K, V>, v: Block?<K, V>)
    requires !n.leaf
    modifies n`right
    ensures n.right == v
  {
    n.right := v;
  }

  /** `update_height`: stores only when the height changed. */
  method UpdateHeight<K(!new), V>(n: Block<K, V>, ghost f: Refs<K, V>, ghost t: Tree<K, V>)
    requires Root(f) == n && Holds(f, t) && t.Node?
    modifies n`height
    ensures Holds(f, Model.UpdateHeight(t))
  {
    var newHeight := Max(HeightOf(n.left), HeightOf(n.right)) + 1;
    if newHeight != n.height {
      n.height := newHeight;
    }
  }

  /** Single rotation to the right. */
  method RotateRight<K(!new), V>(rootNode: Block<K, V>, ghost f: Refs<K, V>, ghost t: Tree<K, V>)
    returns (leftNode: Block<K, V>, ghost f': Refs<K, V>)
    requires Root(f) == rootNode && Holds(f, t) && t.Node? && t.left.Node?
    modifies Blocks(f)
    ensures Root(f') == leftNode && Blocks(f') == Blocks(f)
    ensures Holds(f', Model.UpdateHeight(t.left.(right := Model.UpdateHeight(t.(left := t.left.right)))))
  {
    hide Holds, Blocks, Model.UpdateHeight, Model.Height, Model.Max, HeightOf;
    Parts(f, t);
    leftNode := rootNode.left;
    Parts(f.left, t.left);
    ghost var fll, flr, fr := f.left.left, f.left.right, f.right;
    ghost var tll, tlr, tr := t.left.left, t.left.right, t.right;
    UpdateLeft(rootNode, leftNode.right);
    UpdateRight(leftNode, rootNode);
    assert Holds(fll, tll) && Holds(flr, tlr) && Holds(fr, tr);
    Close(rootNode, flr, tlr, fr, tr);
    ghost var fr', tr' := At(rootNode, flr, fr), t.(left := tlr);
    UpdateHeight(rootNode, fr', tr');
    assert Holds(fll, tll);
    Close(leftNode, fll, tll, fr', Model.UpdateHeight(tr'));
    f' := At(leftNode, fll, fr');
    UpdateHeight(leftNode, f', t.left.(right := Model.UpdateHeight(tr')));
  }

  /** Single rotation to the left. */
  method RotateLeft<K(!new), V>(rootNode: Block<K, V>, ghost f: Refs<K, V>, ghost t: Tree<K, V>)
    returns (rightNode: Block<K, V>, ghost f': Refs<K, V>)
    requires Root(f) == rootNode && Holds(f, t) && t.Node? && t.right.Node?
    modifies Blocks(f)
    ensures Root(f') == rightNode && Blocks(f') == Blocks(f)
    ensures Holds(f', Model.UpdateHeight(t.right.(left := Model.UpdateHeight(t.(right := t.right.left)))))
  {
    hide Holds, Blocks, Model.UpdateHeight, Model.Height, Model.Max, HeightOf;
    Parts(f, t);
    rightNode := rootNode.right;
    Parts(f.right, t.right);
    ghost var fl, frl, frr := f.left, f.right.left, f.right.right;
    ghost var tl, trl, trr := t.left, t.right.left, t.right.right;
    UpdateRight(rootNode, rightNode.left);
    UpdateLeft(rightNode, rootNode);
    assert Holds(fl, tl) && Holds(frl, trl) && Holds(frr, trr);
    Close(rootNode, fl, tl, frl, trl);
    ghost var fl', tl' := At(rootNode, fl, frl), t.(right := trl);
    UpdateHeight(rootNode, fl', tl');
    assert Holds(frr, trr);
    Close(rightNode, fl', Model.UpdateHeight(tl'), frr, trr);
    f' := At(rightNode, fl', frr);
    UpdateHeight(rightNode, f', t.right.(left := Model.UpdateHeight(tl')));
  }

  /** Double rotation: the left child's right child comes up. */
  method RotateLeftRight<K(!new), V>(rootNode: Block<K, V>, ghost f: Refs<K, V>, ghost t: Tree<K, V>)
    returns (lrNode: Block<K, V>, ghost f': Refs<K, V>)
    requires Root(f) == rootNode && Holds(f, t) && t.Node? && t.left.Node? && t.left.right.Node?
    modifies Blocks(f)
    ensures Root(f') == lrNode && Blocks(f') == Blocks(f)
    ensures var l, lr := t.left, t.left.right;
            Holds(f', Model.UpdateHeight(
              lr.(left := Model.UpdateHeight(l.(right := lr.left)), right := Model.UpdateHeight(t.(left := lr.right)))))
  {
    hide Holds, Blocks, Model.UpdateHeight, Model.Height, Model.Max, HeightOf;
    DoubleParts(f, t, true);
    var leftNode := rootNode.left;
    lrNode := leftNode.right;
    ghost var fll, fa, fb, fr := f.left.left, f.left.right.left, f.left.right.right, f.right;
    ghost var tll, ta, tb, tr := t.left.left, t.left.right.left, t.left.right.right, t.right;
    UpdateRight(leftNode, lrNode.left);
    UpdateLeft(rootNode, lrNode.right);
    UpdateRight(lrNode, rootNode);
    UpdateLeft(lrNode, leftNode);
    assert Holds(fll, tll) && Holds(fa, ta) && Holds(fb, tb) && Holds(fr, tr);
    ghost var tl', tr' := t.left.(right := ta), t.(left := tb);
    f' := FinishDouble(leftNode, rootNode, lrNode, true, fll, fa, fb, fr, tl', tr', t.left.right);
  }

  /** The last three assignments of a double rotation: the heights of the two lower nodes, the node that was not the
      root first, and then of the upper one. */
  method FinishDouble<K(!new), V>(left: Block<K, V>, right: Block<K, V>, top: Block<K, V>, leftFirst: bool,
                                  ghost fa: Refs<K, V>, ghost fb: Refs<K, V>, ghost fc: Refs<K, V>,
                                  ghost fd: Refs<K, V>,
                                  ghost tl: Tree<K, V>, ghost tr: Tree<K, V>, ghost tm: Tree<K, V>)
    returns (ghost f': Refs<K, V>)
    requires Carries(left, tl) && Carries(right, tr) && Carries(top, tm)
    requires left.left == Root(fa) && left.right == Root(fb) && right.left == Root(fc) && right.right == Root(fd)
    requires top.left == left && top.right == right && left != right && left != top && right != top
    requires Holds(fa, tl.left) && Holds(fb, tl.right) && Holds(fc, tr.left) && Holds(fd, tr.right)
    requires {left, right, top} !! Blocks(fa) !! Blocks(fb) !! Blocks(fc) !! Blocks(fd)
    modifies left`height, right`height, top`height
    ensures Root(f') == top && Blocks(f') == {left, right, top} + Blocks(fa) + Blocks(fb) + Blocks(fc) + Blocks(fd)
    ensures Holds(f', Model.UpdateHeight(tm.(left := Model.UpdateHeight(tl), right := Model.UpdateHeight(tr))))
  {
    hide Holds, Blocks, Model.UpdateHeight, Model.Height, Model.Max, HeightOf;
    ghost var fl', fr' := At(left, fa, fb), At(right, fc, fd);
    Close(left, fa, tl.left, fb, tl.right);
    Close(right, fc, tr.left, fd, tr.right);
    assert allocated(Blocks(fl')) && allocated(Blocks(fr'));
    if leftFirst {
      UpdateHeight(left, fl', tl);
      assert Holds(fr', tr);
      UpdateHeight(right, fr', tr);
      assert Holds(fl', Model.UpdateHeight(tl));
    } else {
      UpdateHeight(right, fr', tr);
      assert Holds(fl', tl);
      UpdateHeight(left, fl', tl);
      assert Holds(fr', Model.UpdateHeight(tr));
    }
    Close(top, fl', Model.UpdateHeight(tl), fr', Model.UpdateHeight(tr));
    f' := At(top, fl', fr');
    UpdateHeight(top, f', tm.(left := Model.UpdateHeight(tl), right := Model.UpdateHeight(tr)));
  }

  /** The block holds the binding and the height of the node. */
  ghost predicate Carries<K(!new), V>(p: Block<K, V>, t: Tree<K, V>)
    reads p
  {
    t.Node? && !p.leaf && p.key == t.key && p.val == t.val && p.height == t.height
  }

  /** Double rotation: the right child's left child comes up. */
  method RotateRightLeft<K(!new), V>(rootNode: Block<K, V>, ghost f: Refs<K, V>, ghost t: Tree<K, V>)
    returns (rlNode: Block<K, V>, ghost f': Refs<K, V>)
    requires Root(f) == rootNode && Holds(f, t) && t.Node? && t.right.Node? && t.right.left.Node?
    modifies Blocks(f)
    ensures Root(f') == rlNode && Blocks(f') == Blocks(f)
    ensures var r, rl := t.right, t.right.left;
            Holds(f', Model.UpdateHeight(
              rl.(left := Model.UpdateHeight(t.(right := rl.left)), right := Model.UpdateHeight(r.(left := rl.right)))))
  {
    hide Holds, Blocks, Model.UpdateHeight, Model.Height, Model.Max, HeightOf;
    DoubleParts(f, t, false);
    var rightNode := rootNode.right;
    rlNode := rightNode.left;
    ghost var fl, fa, fb, frr := f.left, f.right.left.left, f.right.left.right, f.right.right;
    ghost var tl, ta, tb, trr := t.left, t.right.left.left, t.right.left.right, t.right.right;
    UpdateLeft(rightNode, rlNode.right);
    UpdateRight(rootNode, rlNode.left);
    UpdateLeft(rlNode, rootNode);
    UpdateRight(rlNode, rightNode);
    assert Holds(fl, tl) && Holds(fa, ta) && Holds(fb, tb) && Holds(frr, trr);
    ghost var tl', tr' := t.(right := ta), t.right.(left := tb);
    f' := FinishDouble(rootNode, rightNode, rlNode, false, fl, fa, fb, frr, tl', tr', t.right.left);
  }

  /** `balance`: rotates in place. The blocks stay the same, and the `assert false` branches are not reached. */
  method Balance<K(!new), V>(tree: Block?<K, V>, ghost f: Refs<K, V>, ghost t: Tree<K, V>)
    returns (root: Block?<K, V>, ghost f': Refs<K, V>)
    requires Root(f) == tree && Holds(f, t) && Balanceable(t)
    modifies Blocks(f)
    ensures Root(f') == root && Holds(f', Model.Balance(t))
    ensures Blocks(f') == Blocks(f)
  {
    if tree == null || tree.leaf {
      return tree, f;
    }
    hide Holds, Blocks;
    Parts(f, t);
    HeightSign(t.left);
    HeightSign(t.right);
    var left, right := tree.left, tree.right;
    HeightHeld(f.left, t.left);
    HeightHeld(f.right, t.right);
    var hl, hr := HeightOf(left), HeightOf(right);
    if hl > hr + 2 {
      Parts(f.left, t.left);
      HeightHeld(f.left.left, t.left.left);
      HeightHeld(f.left.right, t.left.right);
      if HeightOf(left.left) >= HeightOf(left.right) {
        root, f' := RotateRight(tree, f, t);
      } else {
        HeightSign(t.left.left);
        HeightSign(t.left.right);
        root, f' := RotateLeftRight(tree, f, t);
      }
    } else if hr > hl + 2 {
      Parts(f.right, t.right);
      HeightHeld(f.right.left, t.right.left);
      HeightHeld(f.right.right, t.right.right);
      if HeightOf(right.right) >= HeightOf(right.left) {
        root, f' := RotateLeft(tree, f, t);
      } else {
        HeightSign(t.right.left);
        HeightSign(t.right.right);
        root, f' := RotateRightLeft(tree, f, t);
      }
    } else {
      UpdateHeight(tree, f, t);
      root, f' := tree, f;
    }
  }

  /** `set_left`: the rebalanced tree becomes the left child unless it already is. */
  method SetLeft<K(!new), V>(node: Block<K, V>, tree: Block?<K, V>, ghost n: Tree<K, V>,
                             ghost ft: Refs<K, V>, ghost tt: Tree<K, V>, ghost fr: Refs<K, V>)
    returns (ghost ft': Refs<K, V>)
    requires n.Node? && !node.leaf && node.key == n.key && node.val == n.val
    requires Root(fr) == node.right && Holds(fr, n.right)
    requires Root(ft) == tree && Holds(ft, tt) && Balanceable(tt)
    requires node !in Blocks(ft) && node !in Blocks(fr) && Blocks(ft) !! Blocks(fr)
    modifies {node} + Blocks(ft)
    ensures Blocks(ft') == Blocks(ft) && Blocks(At(node, ft', fr)) == {node} + Blocks(ft) + Blocks(fr)
    ensures Holds(At(node, ft', fr), Model.SetLeft(n, tt))
  {
    hide Holds, Blocks;
    var tree';
    assert allocated(Blocks(fr));
    tree', ft' := Balance(tree, ft, tt);
    assert allocated(Blocks(ft'));
    if node.left != tree' {
      UpdateLeft(node, tree');
    }
    assert Holds(ft', Model.Balance(tt)) && Holds(fr, n.right);
    Close(node, ft', Model.Balance(tt), fr, n.right);
    UpdateHeight(node, At(node, ft', fr), Tree.Node(Model.Balance(tt), n.key, n.val, node.height, n.right));
  }

  /** `set_right`: the rebalanced tree becomes the right child unless it already is. */
  method SetRight<K(!new), V>(node: Block<K, V>, tree: Block?<K, V>, ghost n: Tree<K, V>,
                              ghost fl: Refs<K, V>, ghost ft: Refs<K, V>, ghost tt: Tree<K, V>)
    returns (ghost ft': Refs<K, V>)
    requires n.Node? && !node.leaf && node.key == n.key && node.val == n.val
    requires Root(fl) == node.left && Holds(fl, n.left)
    requires Root(ft) == tree && Holds(ft, tt) && Balanceable(tt)
    requires node !in Blocks(ft) && node !in Blocks(fl) && Blocks(ft) !! Blocks(fl)
    modifies {node} + Blocks(ft)
    ensures Blocks(ft') == Blocks(ft) && Blocks(At(node, fl, ft')) == {node} + Blocks(fl) + Blocks(ft)
    ensures Holds(At(node, fl, ft'), Model.SetRight(n, tt))
  {
    hide Holds, Blocks;
    var tree';
    assert allocated(Blocks(fl));
    tree', ft' := Balance(tree, ft, tt);
    assert allocated(Blocks(ft'));
    if node.right != tree' {
      UpdateRight(node, tree');
    }
    assert Holds(ft', Model.Balance(tt)) && Holds(fl, n.left);
    Close(node, fl, n.left, ft', Model.Balance(tt));
    UpdateHeight(node, At(node, fl, ft'), Tree.Node(n.left, n.key, n.val, node.height, Model.Balance(tt)));
  }

  /** The recursive part of `add`. At most one block is allocated; every other block is reused. */
  method AddRec<K(!new), V>(p: Block?<K, V>, replace: bool, added: BoolRef, cmp: (K, K) -> int, k: K, v: V,
                            ghost f: Refs<K, V>, ghost t: Tree<K, V>)
    returns (root: Block?<K, V>, ghost f': Refs<K, V>)
    requires Root(f) == p && Holds(f, t) && Balanced(t)
    modifies Blocks(f), added
    ensures Root(f') == root && fresh(Blocks(f') - Blocks(f))
    ensures Holds(f', Model.AddRec(t, k, v, replace, cmp).tree)
    ensures added.contents == Model.AddRec(t, k, v, replace, cmp).done
    decreases t
  {
    if p == null {
      added.Assign(true);
      root := new Block.Leaf(k, v);
      f' := At(root, Nil, Nil);
    } else if p.leaf {
      var c := cmp(p.key, k);
      if c == 0 {
        added.Assign(false);
        if replace { p.val := v; }
        return p, f;
      }
      added.Assign(true);
      if c < 0 {
        root := new Block.Node(p, k, v, 2, null);
        f' := At(root, f, Nil);
      } else {
        root := new Block.Node(null, k, v, 2, p);
        f' := At(root, Nil, f);
      }
    } else {
      root, f' := AddAtNode(p, replace, added, cmp, k, v, f, t);
    }
  }

  method AddAtNode<K(!new), V>(p: Block<K, V>, replace: bool, added: BoolRef, cmp: (K, K) -> int, k: K, v: V,
                               ghost f: Refs<K, V>, ghost t: Tree<K, V>)
    returns (root: Block?<K, V>, ghost f': Refs<K, V>)
    requires Root(f) == p && Holds(f, t) && Balanced(t) && t.Node?
    modifies Blocks(f), added
    ensures Root(f') == root && fresh(Blocks(f') - Blocks(f))
    ensures Holds(f', Model.AddRec(t, k, v, replace, cmp).tree)
    ensures added.contents == Model.AddRec(t, k, v, replace, cmp).done
    decreases t, 0
  {
    hide Holds, Blocks;
    Parts(f, t);
    var c := cmp(k, p.key);
    if c == 0 {
      added.Assign(false);
      if replace { p.val := v; }
      assert Holds(f.left, t.left) && Holds(f.right, t.right);
      Close(p, f.left, t.left, f.right, t.right);
      return p, f;
    }
    if c < 0 {
      var l;
      ghost var fl;
      l, fl := AddRec(p.left, replace, added, cmp, k, v, f.left, t.left);
      assert allocated(Blocks(fl));
      fl := SetLeft(p, l, t, fl, Model.AddRec(t.left, k, v, replace, cmp).tree, f.right);
      root, f' := p, At(p, fl, f.right);
    } else {
      var r;
      ghost var fr;
      r, fr := AddRec(p.right, replace, added, cmp, k, v, f.right, t.right);
      assert allocated(Blocks(fr));
      fr := SetRight(p, r, t, f.left, fr, Model.AddRec(t.right, k, v, replace, cmp).tree);
      root, f' := p, At(p, f.left, fr);
    }
  }

  /** `add`: from any valid tree, in place, to the valid tree of the sorted insertion; `added` is set exactly when
      the key was absent. */
  method Add<K(!new), V>(p: Block?<K, V>, replace: bool, added: BoolRef, cmp: (K, K) -> int, k: K, v: V,
                         ghost f: Refs<K, V>, ghost t: Tree<K, V>)
    returns (root: Block?<K, V>, ghost f': Refs<K, V>, ghost t': Tree<K, V>)
    requires TotalOrder(cmp) && Root(f) == p && Holds(f, t) && Valid(t, cmp)
    modifies Blocks(f), added
    ensures Root(f') == root && fresh(Blocks(f') - Blocks(f)) && Holds(f', t')
    ensures Valid(t', cmp) && Contents(t') == Insert(Contents(t), k, v, replace, cmp)
    ensures added.contents <==> Lookup(Contents(t), k, cmp) == None
  {
    AddCorrect(t, k, v, replace, cmp);
    root, f' := AddRec(p, replace, added, cmp, k, v, f, t);
    t' := Model.AddRec(t, k, v, replace, cmp).tree;
    if added.contents {
      root, f' := Balance(root, f', t');
      t' := Model.Balance(t');
    }
  }

  /** `find`, with the source's unrolling, reads the heap only. */
  method Find<K(!new), V>(p: Block?<K, V>, cmp: (K, K) -> int, k: K, ghost f: Refs<K, V>, ghost t: Tree<K, V>)
    returns (r: Option<V>)
    requires Root(f) == p && Holds(f, t)
    ensures r == Model.Find(t, k, cmp)
    decreases t
  {
    if p == null {
      return None;
    }
    if p.leaf {
      return if cmp(k, p.key) == 0 then Some(p.val) else None;
    }
    hide Holds, Blocks;
    Parts(f, t);
    var c := cmp(k, p.key);
    if c == 0 {
      return Some(p.val);
    }
    var child := if c < 0 then p.left else p.right;
    ghost var fc, tc := if c < 0 then f.left else f.right, if c < 0 then t.left else t.right;
    assert Holds(fc, tc) && Root(fc) == child;
    Kind(fc, tc);
    if child == null {
      return None;
    }
    if child.leaf {
      return if cmp(k, child.key) == 0 then Some(child.val) else None;
    }
    Parts(fc, tc);
    var c' := cmp(k, child.key);
    if c' == 0 {
      return Some(child.val);
    }
    if c' < 0 {
      r := Find(child.left, cmp, k, fc.left, tc.left);
    } else {
      r := Find(child.right, cmp, k, fc.right, tc.right);
    }
  }

  /** The tag of the root block is the constructor of the tree. */
  lemma Kind<K(!new), V>(f: Refs<K, V>, t: Tree<K, V>)
    requires Holds(f, t)
    ensures t.Empty? <==> Root(f) == null
    ensures f.At? ==> f.root in Blocks(f) && (t.Leaf? <==> f.root.leaf) && t.key == f.root.key && t.val == f.root.val
  {}

  /** The block `min_elt` stops at. */
  ghost function MinBlock<K(!new), V>(f: Refs<K, V>): Block<K, V>
    requires f.At?
  {
    if f.left.Nil? then f.root else MinBlock(f.left)
  }

  lemma {:induction false} MinInside<K(!new), V>(f: Refs<K, V>)
    requires f.At?
    ensures MinBlock(f) in Blocks(f)
  {
    if f.left.At? { MinInside(f.left); }
  }

  lemma NilHolds<K(!new), V>()
    ensures Holds(Refs<K, V>.Nil, Tree<K, V>.Empty) && Blocks(Refs<K, V>.Nil) == {}
  {}

  method NewLeaf<K(!new), V>(k: K, v: V) returns (p: Block<K, V>)
    ensures fresh(p) && Blocks(At(p, Nil, Nil)) == {p} && Holds(At(p, Nil, Nil), Tree.Leaf(k, v))
  {
    p := new Block.Leaf(k, v);
  }

  method MinElt<K(!new), V>(p: Block<K, V>, ghost f: Refs<K, V>, ghost t: Tree<K, V>) returns (m: Block<K, V>)
    requires Root(f) == p && Holds(f, t)
    ensures m == MinBlock(f) && m in Blocks(f)
    ensures (m.leaf <==> Model.MinElt(t).Leaf?) && m.key == Model.MinElt(t).key && m.val == Model.MinElt(t).val
    ensures !m.leaf ==> m.left == null
    decreases t
  {
    Kind(f, t);
    if p.leaf || p.left == null {
      m := p;
    } else {
      m := MinElt(p.left, f.left, t.left);
    }
  }

  /** `remove_min_elt`: the block of the smallest key is unlinked and left untouched. */
  method RemoveMinElt<K(!new), V>(p: Block<K, V>, ghost f: Refs<K, V>, ghost t: Tree<K, V>)
    returns (root: Block?<K, V>, ghost f': Refs<K, V>)
    requires Root(f) == p && Holds(f, t) && Balanced(t)
    modifies Blocks(f) - {MinBlock(f)}
    ensures Root(f') == root && fresh(Blocks(f') - Blocks(f)) && MinBlock(f) !in Blocks(f')
    ensures Holds(f', Model.RemoveMinElt(t))
    decreases t
  {
    Kind(f, t);
    if p.leaf {
      return null, Nil;
    }
    hide Holds;
    Parts(f, t);
    Kind(f.left, t.left);
    Kind(f.right, t.right);
    if p.left == null {
      return p.right, f.right;
    }
    if p.left.leaf && p.right == null {
      root := NewLeaf(p.key, p.val);
      return root, At(root, Nil, Nil);
    }
    MinInside(f.left);
    if p.left.leaf {
      NilHolds<K, V>();
      ghost var fl := SetLeft(p, null, t, Nil, Empty, f.right);
      return p, At(p, fl, f.right);
    }
    ghost var fl;
    var l;
    l, fl := RemoveMinElt(p.left, f.left, t.left);
    assert allocated(Blocks(fl));
    fl := SetLeft(p, l, t, fl, Model.RemoveMinElt(t.left), f.right);
    return p, At(p, fl, f.right);
  }

  /** `merge`: joins two disjoint sibling trees, reusing the node of the smallest key on the right when it is a Node. */
  method Merge<K(!new), V>(p1: Block?<K, V>, p2: Block?<K, V>, ghost f1: Refs<K, V>, ghost t1: Tree<K, V>,
                           ghost f2: Refs<K, V>, ghost t2: Tree<K, V>)
    returns (root: Block?<K, V>, ghost f': Refs<K, V>)
    requires Root(f1) == p1 && Holds(f1, t1) && Balanced(t1)
    requires Root(f2) == p2 && Holds(f2, t2) && Balanced(t2)
    requires Blocks(f1) !! Blocks(f2) && -2 <= Height(t1) - Height(t2) <= 2
    modifies Blocks(f1) + Blocks(f2)
    ensures Root(f') == root && fresh(Blocks(f') - Blocks(f1) - Blocks(f2))
    ensures Holds(f', Model.Merge(t1, t2))
  {
    hide Holds, Blocks, Balanced, MinBlock, Model.RemoveMinElt, Model.Balance;
    Kind(f1, t1);
    Kind(f2, t2);
    if p1 == null {
      return p2, f2;
    }
    if p2 == null {
      return p1, f1;
    }
    assert allocated(Blocks(f1)) && allocated(Blocks(f2));
    var node := MinElt(p2, f2, t2);
    var rest;
    ghost var fr;
    ghost var tr := Model.RemoveMinElt(t2);
    rest, fr := RemoveMinElt(p2, f2, t2);
    assert allocated(Blocks(fr));
    if node.leaf {
      root, f' := MergeAtLeaf(p1, node, rest, f1, t1, fr, tr);
    } else {
      f' := MergeAtNode(p1, node, rest, f1, t1, Model.MinElt(t2), fr, tr);
      root := node;
    }
  }

  /** The Node case of `merge`: the unlinked node of the smallest key becomes the root. */
  method MergeAtNode<K(!new), V>(p1: Block<K, V>, node: Block<K, V>, rest: Block?<K, V>,
                                 ghost f1: Refs<K, V>, ghost t1: Tree<K, V>, ghost m: Tree<K, V>,
                                 ghost fr: Refs<K, V>, ghost tr: Tree<K, V>)
    returns (ghost f': Refs<K, V>)
    requires Root(f1) == p1 && Holds(f1, t1) && Balanced(t1)
    requires Root(fr) == rest && Holds(fr, tr) && Balanceable(tr)
    requires Blocks(f1) !! Blocks(fr) && node !in Blocks(f1) && node !in Blocks(fr)
    requires m.Node? && m.left.Empty? && !node.leaf && node.key == m.key && node.val == m.val && node.left == null
    modifies {node} + Blocks(f1) + Blocks(fr)
    ensures Root(f') == node && Blocks(f') == {node} + Blocks(f1) + Blocks(fr)
    ensures Balanceable(t1) && Holds(f', Model.SetLeft(Model.SetRight(m, tr), t1))
  {
    hide Holds, Blocks;
    NilHolds<K, V>();
    assert allocated(Blocks(f1));
    ghost var fr' := SetRight(node, rest, m, Nil, fr, tr);
    ghost var n := Model.SetRight(m, tr);
    Parts(At(node, Nil, fr'), n);
    assert Holds(f1, t1);
    BalanceIdle(t1);
    ghost var fl := SetLeft(node, p1, n, f1, t1, fr');
    f' := At(node, fl, fr');
  }

  /** The Leaf case of `merge`: a new Node takes the leaf's binding. */
  method MergeAtLeaf<K(!new), V>(p1: Block<K, V>, leaf: Block<K, V>, rest: Block?<K, V>,
                                 ghost f1: Refs<K, V>, ghost t1: Tree<K, V>, ghost fr: Refs<K, V>, ghost tr: Tree<K, V>)
    returns (root: Block<K, V>, ghost f': Refs<K, V>)
    requires Root(f1) == p1 && Holds(f1, t1) && Root(fr) == rest && Holds(fr, tr) && Balanceable(tr)
    requires Blocks(f1) !! Blocks(fr) && leaf !in Blocks(fr)
    modifies Blocks(fr)
    ensures Root(f') == root && fresh(root) && Blocks(f') == {root} + Blocks(f1) + Blocks(fr)
    ensures var t2 := Model.Balance(tr);
            Holds(f', Tree.Node(t1, leaf.key, old(leaf.val), Max(Height(t1), Height(t2)) + 1, t2))
  {
    hide Holds, Blocks;
    assert allocated(Blocks(f1));
    var t2;
    ghost var f2;
    t2, f2 := Balance(rest, fr, tr);
    HeightHeld(f1, t1);
    HeightHeld(f2, Model.Balance(tr));
    assert allocated(Blocks(f2));
    root := new Block.Node(p1, leaf.key, leaf.val, Max(HeightOf(p1), HeightOf(t2)) + 1, t2);
    assert Holds(f1, t1) && Holds(f2, Model.Balance(tr));
    Close(root, f1, t1, f2, Model.Balance(tr));
    f' := At(root, f1, f2);
  }

  /** The recursive part of `remove`. */
  method RemoveRec<K(!new), V>(p: Block?<K, V>, removed: BoolRef, cmp: (K, K) -> int, k: K,
                               ghost f: Refs<K, V>, ghost t: Tree<K, V>)
    returns (root: Block?<K, V>, ghost f': Refs<K, V>)
    requires Root(f) == p && Holds(f, t) && Balanced(t)
    modifies Blocks(f), removed
    ensures Root(f') == root && fresh(Blocks(f') - Blocks(f))
    ensures Holds(f', Model.RemoveRec(t, k, cmp).tree)
    ensures removed.contents == Model.RemoveRec(t, k, cmp).done
    decreases t
  {
    Kind(f, t);
    if p == null {
      removed.Assign(false);
      return null, Nil;
    }
    if p.leaf {
      if cmp(k, p.key) == 0 {
        removed.Assign(true);
        return null, Nil;
      }
      removed.Assign(false);
      return p, f;
    }
    root, f' := RemoveAtNode(p, removed, cmp, k, f, t);
  }

  /** The key is the root's: its subtrees are merged. */
  method RemoveRoot<K(!new), V>(p: Block<K, V>, removed: BoolRef, ghost f: Refs<K, V>, ghost t: Tree<K, V>)
    returns (root: Block?<K, V>, ghost f': Refs<K, V>)
    requires Root(f) == p && Holds(f, t) && t.Node? && Balanced(t.left) && Balanced(t.right)
    requires -2 <= Height(t.left) - Height(t.right) <= 2
    modifies Blocks(f), removed
    ensures Root(f') == root && fresh(Blocks(f') - Blocks(f))
    ensures Holds(f', Model.Merge(t.left, t.right))
    ensures removed.contents
  {
    hide Holds, Blocks, Balanced, Balanceable, Height, Model.Merge;
    Parts(f, t);
    removed.Assign(true);
    assert Holds(f.left, t.left) && Holds(f.right, t.right);
    root, f' := Merge(p.left, p.right, f.left, t.left, f.right, t.right);
    assert Blocks(f') - Blocks(f) <= Blocks(f') - Blocks(f.left) - Blocks(f.right);
  }

  /** The key is smaller than the root's. */
  method RemoveLeft<K(!new), V>(p: Block<K, V>, removed: BoolRef, cmp: (K, K) -> int, k: K,
                               ghost f: Refs<K, V>, ghost t: Tree<K, V>)
    returns (ghost f': Refs<K, V>)
    requires Root(f) == p && Holds(f, t) && t.Node? && Balanced(t.left) &&
             Balanceable(Model.RemoveRec(t.left, k, cmp).tree)
    modifies Blocks(f), removed
    ensures Root(f') == p && fresh(Blocks(f') - Blocks(f))
    ensures Holds(f', Model.SetLeft(t, Model.RemoveRec(t.left, k, cmp).tree))
    ensures removed.contents == Model.RemoveRec(t.left, k, cmp).done
    decreases t, 0
  {
    hide Holds, Blocks, Balanced, Balanceable, Height, Model.RemoveRec, Model.SetLeft, Model.Balance;
    Parts(f, t);
    var l;
    ghost var fl;
    l, fl := RemoveRec(p.left, removed, cmp, k, f.left, t.left);
    ghost var below := Blocks(fl);
    assert allocated(below) && fresh(below - Blocks(f.left));
    fl := SetLeft(p, l, t, fl, Model.RemoveRec(t.left, k, cmp).tree, f.right);
    f' := At(p, fl, f.right);
    assert Blocks(f') - Blocks(f) <= below - Blocks(f.left);
    assert fresh(Blocks(f') - Blocks(f));
  }

  /** The key is greater than the root's. */
  method RemoveRight<K(!new), V>(p: Block<K, V>, removed: BoolRef, cmp: (K, K) -> int, k: K,
                               ghost f: Refs<K, V>, ghost t: Tree<K, V>)
    returns (ghost f': Refs<K, V>)
    requires Root(f) == p && Holds(f, t) && t.Node? && Balanced(t.right) &&
             Balanceable(Model.RemoveRec(t.right, k, cmp).tree)
    modifies Blocks(f), removed
    ensures Root(f') == p && fresh(Blocks(f') - Blocks(f))
    ensures Holds(f', Model.SetRight(t, Model.RemoveRec(t.right, k, cmp).tree))
    ensures removed.contents == Model.RemoveRec(t.right, k, cmp).done
    decreases t, 0
  {
    hide Holds, Blocks, Balanced, Balanceable, Height, Model.RemoveRec, Model.SetRight, Model.Balance;
    Parts(f, t);
    var l;
    ghost var fl;
    l, fl := RemoveRec(p.right, removed, cmp, k, f.right, t.right);
    ghost var below := Blocks(fl);
    assert allocated(below) && fresh(below - Blocks(f.right));
    fl := SetRight(p, l, t, f.left, fl, Model.RemoveRec(t.right, k, cmp).tree);
    f' := At(p, f.left, fl);
    assert Blocks(f') - Blocks(f) <= below - Blocks(f.right);
    assert fresh(Blocks(f') - Blocks(f));
  }

  method RemoveAtNode<K(!new), V>(p: Block<K, V>, removed: BoolRef, cmp: (K, K) -> int, k: K,
                                  ghost f: Refs<K, V>, ghost t: Tree<K, V>)
    returns (root: Block?<K, V>, ghost f': Refs<K, V>)
    requires Root(f) == p && Holds(f, t) && Balanced(t) && t.Node?
    modifies Blocks(f), removed
    ensures Root(f') == root && fresh(Blocks(f') - Blocks(f))
    ensures Holds(f', Model.RemoveRec(t, k, cmp).tree)
    ensures removed.contents == Model.RemoveRec(t, k, cmp).done
    decreases t, 1
  {
    hide Holds, Blocks, Balanceable, Height, Model.RemoveRec, Model.Merge, Model.SetLeft, Model.SetRight, Model.Balance;
    RemoveRecNode(t, k, cmp);
    Parts(f, t);
    var c := cmp(k, p.key);
    if c == 0 {
      root, f' := RemoveRoot(p, removed, f, t);
    } else if c < 0 {
      root := p;
      f' := RemoveLeft(p, removed, cmp, k, f, t);
    } else {
      root := p;
      f' := RemoveRight(p, removed, cmp, k, f, t);
    }
  }

  /** `remove`: from any valid tree, in place, to the valid tree without the key; `removed` is set exactly when the
      key was present. */
  method Remove<K(!new), V>(p: Block?<K, V>, removed: BoolRef, cmp: (K, K) -> int, k: K,
                            ghost f: Refs<K, V>, ghost t: Tree<K, V>)
    returns (root: Block?<K, V>, ghost f': Refs<K, V>, ghost t': Tree<K, V>)
    requires TotalOrder(cmp) && Root(f) == p && Holds(f, t) && Valid(t, cmp)
    modifies Blocks(f), removed
    ensures Root(f') == root && fresh(Blocks(f') - Blocks(f)) && Holds(f', t')
    ensures Valid(t', cmp) && Contents(t') == Delete(Contents(t), k, cmp)
    ensures removed.contents <==> Lookup(Contents(t), k, cmp) != None
  {
    RemoveCorrect(t, k, cmp);
    root, f' := RemoveRec(p, removed, cmp, k, f, t);
    t' := Model.Balance(Model.RemoveRec(t, k, cmp).tree);
    root, f' := Balance(root, f', Model.RemoveRec(t, k, cmp).tree);
  }
}
