/**
 * The balancer of the AVL tree map (`AVLTree.methods`): `balance` picks a case
 * from the node's balance factor and then from the heavier child's, and the
 * four rotations carry it out. The rotations here rebuild every node they
 * touch with the raw `WithLeft` / `WithRight` rebuilds, which keep the key and
 * the value and recompute the height without rebalancing: this is the
 * standard AVL rotation the code evidently intends. `AVLTree.java` builds the
 * rotated nodes through setters that go back through `create`, and so
 * rebalance every intermediate node; module `AsWritten` models that reading
 * and shows where the two differ.
 *
 * Tree shapes below are written `(P, A, B)` for a node `P` with left subtree
 * `A` and right subtree `B`.
 */
module Balancer {
  import opened AVLTree

  /** `balanceLeftLeft`: a single right rotation, `(P, (L, A, C), D)` to `(L, A, (P, C, D))`. */
  function BalanceLeftLeft<V>(parent: Tree<V>): (r: Tree<V>)
    requires parent.Node? && parent.left.Node?
    ensures r == MkNode(parent.left.key, parent.left.value, parent.left.left,
                        MkNode(parent.key, parent.value, parent.left.right, parent.right))
  {
    var c := parent.left.right;
    var five := parent.WithLeft(c);
    parent.left.WithRight(five)
  }

  /** `balanceLeftRight`: a double rotation, `(P, (L, A, (M, B, C)), D)` to `(M, (L, A, B), (P, C, D))`. */
  function BalanceLeftRight<V>(parent: Tree<V>): (r: Tree<V>)
    requires parent.Node? && parent.left.Node? && parent.left.right.Node?
    ensures r == MkNode(parent.left.right.key, parent.left.right.value,
                        MkNode(parent.left.key, parent.left.value, parent.left.left, parent.left.right.left),
                        MkNode(parent.key, parent.value, parent.left.right.right, parent.right))
  {
    var b := parent.left.right.left;
    var three := parent.left.WithRight(b);
    var four := parent.left.right.WithLeft(three);
    BalanceLeftLeft(parent.WithLeft(four))
  }

  /** `balanceRightRight`: a single left rotation, `(P, A, (R, B, D))` to `(R, (P, A, B), D)`. */
  function BalanceRightRight<V>(parent: Tree<V>): (r: Tree<V>)
    requires parent.Node? && parent.right.Node?
    ensures r == MkNode(parent.right.key, parent.right.value,
                        MkNode(parent.key, parent.value, parent.left, parent.right.left),
                        parent.right.right)
  {
    var b := parent.right.left;
    var three := parent.WithRight(b);
    parent.right.WithLeft(three)
  }

  /** `balanceRightLeft`: a double rotation, `(P, A, (R, (M, B, C), D))` to `(M, (P, A, B), (R, C, D))`. */
  function BalanceRightLeft<V>(parent: Tree<V>): (r: Tree<V>)
    requires parent.Node? && parent.right.Node? && parent.right.left.Node?
    ensures r == MkNode(parent.right.left.key, parent.right.left.value,
                        MkNode(parent.key, parent.value, parent.left, parent.right.left.left),
                        MkNode(parent.right.key, parent.right.value, parent.right.left.right, parent.right.right))
  {
    var c := parent.right.left.right;
    var five := parent.right.WithLeft(c);
    var four := parent.right.left.WithRight(five);
    BalanceRightRight(parent.WithRight(four))
  }

  /**
   * `balanceLeft`, for a left-heavy node: left-right double rotation when the
   * left child leans right, single right rotation when it leans left, and the
   * node unchanged otherwise.
   */
  function BalanceLeft<V>(node: Tree<V>): (r: Tree<V>)
    requires node.Balance() == 2
    ensures Inorder(r) == Inorder(node)
    ensures Keys(r) == Keys(node)
    ensures WellFormed(node) ==> WellFormed(r)
  {
    if node.left.Balance() == -1 then LeftRightPreserves(node); BalanceLeftRight(node)
    else if node.left.Balance() == 1 then LeftLeftPreserves(node); BalanceLeftLeft(node)
    else node
  }

  /**
   * `balanceRight`, for a right-heavy node: right-left double rotation when the
   * right child leans left, single left rotation when it leans right, and the
   * node unchanged otherwise.
   */
  function BalanceRight<V>(node: Tree<V>): (r: Tree<V>)
    requires node.Balance() == -2
    ensures Inorder(r) == Inorder(node)
    ensures Keys(r) == Keys(node)
    ensures WellFormed(node) ==> WellFormed(r)
  {
    if node.right.Balance() == 1 then RightLeftPreserves(node); BalanceRightLeft(node)
    else if node.right.Balance() == -1 then RightRightPreserves(node); BalanceRightRight(node)
    else node
  }

  /** `balance`: rebalance a node whose balance factor is 2 or -2; any other node is returned as is. */
  function Balance<V>(node: Tree<V>): (r: Tree<V>)
    ensures !Rotates(node) ==> r == node
    ensures Inorder(r) == Inorder(node)
    ensures Keys(r) == Keys(node)
    ensures WellFormed(node) ==> WellFormed(r)
  {
    if node.Balance() == -2 then BalanceRight(node)
    else if node.Balance() == 2 then BalanceLeft(node)
    else node
  }

  /** The cases in which `balance` rotates: a factor of 2 or -2 and a heavier child leaning by exactly one. */
  predicate Rotates<V>(node: Tree<V>) {
    (node.Balance() == 2 && (node.left.Balance() == 1 || node.left.Balance() == -1)) ||
    (node.Balance() == -2 && (node.right.Balance() == 1 || node.right.Balance() == -1))
  }

  /** Moving the split point of a sequence of entries from one entry to the next. */
  lemma Regroup<T>(a: seq<T>, x: T, c: seq<T>, y: T, d: seq<T>)
    ensures a + [x] + (c + [y] + d) == (a + [x] + c) + [y] + d
  {
  }

  /** The single right rotation keeps the in-order entries, the key set and consistent heights. */
  lemma LeftLeftPreserves<V>(parent: Tree<V>)
    requires parent.Node? && parent.left.Node?
    ensures Inorder(BalanceLeftLeft(parent)) == Inorder(parent)
    ensures Keys(BalanceLeftLeft(parent)) == Keys(parent)
    ensures WellFormed(parent) ==> WellFormed(BalanceLeftLeft(parent))
  {
    var Node(pk, pv, l, d, _) := parent;
    var Node(lk, lv, a, c, _) := l;
    Regroup(Inorder(a), (lk, lv), Inorder(c), (pk, pv), Inorder(d));
    if WellFormed(parent) {
      assert WellFormed(l) && WellFormed(d);
      assert WellFormed(MkNode(pk, pv, c, d));
    }
  }

  /** The left-right double rotation keeps the in-order entries, the key set and consistent heights. */
  lemma LeftRightPreserves<V>(parent: Tree<V>)
    requires parent.Node? && parent.left.Node? && parent.left.right.Node?
    ensures Inorder(BalanceLeftRight(parent)) == Inorder(parent)
    ensures Keys(BalanceLeftRight(parent)) == Keys(parent)
    ensures WellFormed(parent) ==> WellFormed(BalanceLeftRight(parent))
  {
    var Node(pk, pv, l, d, _) := parent;
    var Node(lk, lv, a, m, _) := l;
    var Node(mk, mv, b, c, _) := m;
    var A, B, C, D := Inorder(a), Inorder(b), Inorder(c), Inorder(d);
    var left, right := MkNode(lk, lv, a, b), MkNode(pk, pv, c, d);
    assert BalanceLeftRight(parent) == MkNode(mk, mv, left, right);
    Regroup(A, (lk, lv), B, (mk, mv), C);
    Regroup(A + [(lk, lv)] + B, (mk, mv), C, (pk, pv), D);
    assert Inorder(m) == B + [(mk, mv)] + C;
    assert Keys(m) == Keys(b) + {mk} + Keys(c);
    assert Inorder(parent) == (A + [(lk, lv)] + Inorder(m)) + [(pk, pv)] + D;
    assert Inorder(BalanceLeftRight(parent)) == (A + [(lk, lv)] + B) + [(mk, mv)] + (C + [(pk, pv)] + D);
    if WellFormed(parent) {
      assert WellFormed(l) && WellFormed(d);
      assert WellFormed(m);
      assert WellFormed(left) && WellFormed(right);
    }
  }

  /** The single left rotation keeps the in-order entries, the key set and consistent heights. */
  lemma RightRightPreserves<V>(parent: Tree<V>)
    requires parent.Node? && parent.right.Node?
    ensures Inorder(BalanceRightRight(parent)) == Inorder(parent)
    ensures Keys(BalanceRightRight(parent)) == Keys(parent)
    ensures WellFormed(parent) ==> WellFormed(BalanceRightRight(parent))
  {
    var Node(pk, pv, a, r, _) := parent;
    var Node(rk, rv, b, d, _) := r;
    Regroup(Inorder(a), (pk, pv), Inorder(b), (rk, rv), Inorder(d));
    if WellFormed(parent) {
      assert WellFormed(a) && WellFormed(r);
      assert WellFormed(MkNode(pk, pv, a, b));
    }
  }

  /** The right-left double rotation keeps the in-order entries, the key set and consistent heights. */
  lemma RightLeftPreserves<V>(parent: Tree<V>)
    requires parent.Node? && parent.right.Node? && parent.right.left.Node?
    ensures Inorder(BalanceRightLeft(parent)) == Inorder(parent)
    ensures Keys(BalanceRightLeft(parent)) == Keys(parent)
    ensures WellFormed(parent) ==> WellFormed(BalanceRightLeft(parent))
  {
    var Node(pk, pv, a, r, _) := parent;
    var Node(rk, rv, m, d, _) := r;
    var Node(mk, mv, b, c, _) := m;
    var A, B, C, D := Inorder(a), Inorder(b), Inorder(c), Inorder(d);
    var left, right := MkNode(pk, pv, a, b), MkNode(rk, rv, c, d);
    assert BalanceRightLeft(parent) == MkNode(mk, mv, left, right);
    Regroup(B, (mk, mv), C, (rk, rv), D);
    Regroup(A, (pk, pv), B, (mk, mv), C + [(rk, rv)] + D);
    assert Inorder(m) == B + [(mk, mv)] + C;
    assert Keys(m) == Keys(b) + {mk} + Keys(c);
    assert Inorder(parent) == A + [(pk, pv)] + (Inorder(m) + [(rk, rv)] + D);
    assert Inorder(BalanceRightLeft(parent)) == (A + [(pk, pv)] + B) + [(mk, mv)] + (C + [(rk, rv)] + D);
    if WellFormed(parent) {
      assert WellFormed(a) && WellFormed(r);
      assert WellFormed(m);
      assert WellFormed(left) && WellFormed(right);
    }
  }

  /**
   * `balance` changes the node exactly when one of the four rotation cases
   * applies: a rotation always moves a subtree to a different depth.
   */
  lemma BalanceChangesIffRotates<V>(node: Tree<V>)
    ensures Balance(node) != node <==> Rotates(node)
  {
  }

  /** `balance` keeps the search-tree order, because it keeps the in-order entries. */
  lemma BalanceKeepsSearchTree<V>(node: Tree<V>)
    requires SearchTree(node)
    ensures SearchTree(Balance(node))
  {
    SearchTreeIffAscending(node);
    SearchTreeIffAscending(Balance(node));
  }

  /**
   * In each of the four rotation cases, when both subtrees already satisfy the
   * AVL invariant, `balance` returns an AVL tree one level lower than the node.
   */
  lemma BalanceRestoresAVL<V>(node: Tree<V>)
    requires WellFormed(node) && node.Node?
    requires Balanced(node.left) && Balanced(node.right)
    requires Rotates(node)
    ensures IsAVL(Balance(node))
    ensures Balance(node).Height() == node.Height() - 1
  {
    if node.Balance() == 2 {
      if node.left.Balance() == -1 {
        LeftRightRestores(node);
      } else {
        LeftLeftRestores(node);
      }
    } else {
      if node.right.Balance() == 1 {
        RightLeftRestores(node);
      } else {
        RightRightRestores(node);
      }
    }
  }

  lemma LeftLeftRestores<V>(node: Tree<V>)
    requires node.Balance() == 2 && node.left.Balance() == 1
    requires WellFormed(node) && Balanced(node.left) && Balanced(node.right)
    ensures IsAVL(BalanceLeftLeft(node))
    ensures BalanceLeftLeft(node).Height() == node.Height() - 1
  {
    var Node(pk, pv, l, d, _) := node;
    var Node(lk, lv, a, c, _) := l;
    assert WellFormed(l) && WellFormed(d);
    assert WellFormed(a) && Balanced(a) && WellFormed(c) && Balanced(c);
    var right := MkNode(pk, pv, c, d);
    assert Balanced(right);
    LeftLeftPreserves(node);
  }

  lemma LeftRightRestores<V>(node: Tree<V>)
    requires node.Balance() == 2 && node.left.Balance() == -1
    requires WellFormed(node) && Balanced(node.left) && Balanced(node.right)
    ensures IsAVL(BalanceLeftRight(node))
    ensures BalanceLeftRight(node).Height() == node.Height() - 1
  {
    var Node(pk, pv, l, d, _) := node;
    var Node(lk, lv, a, m, _) := l;
    assert WellFormed(l) && WellFormed(d);
    assert WellFormed(a) && Balanced(a) && WellFormed(m) && Balanced(m);
    var Node(mk, mv, b, c, _) := m;
    assert WellFormed(b) && Balanced(b) && WellFormed(c) && Balanced(c);
    var h := d.Height();
    assert a.Height() == h && m.Height() == h + 1;
    assert h - 1 <= b.Height() <= h && h - 1 <= c.Height() <= h;
    var left, right := MkNode(lk, lv, a, b), MkNode(pk, pv, c, d);
    assert left.Height() == h + 1 && right.Height() == h + 1;
    assert Balanced(left) && Balanced(right);
    assert BalanceLeftRight(node) == MkNode(mk, mv, left, right);
    LeftRightPreserves(node);
  }

  lemma RightRightRestores<V>(node: Tree<V>)
    requires node.Balance() == -2 && node.right.Balance() == -1
    requires WellFormed(node) && Balanced(node.left) && Balanced(node.right)
    ensures IsAVL(BalanceRightRight(node))
    ensures BalanceRightRight(node).Height() == node.Height() - 1
  {
    var Node(pk, pv, a, r, _) := node;
    var Node(rk, rv, b, d, _) := r;
    assert WellFormed(a) && WellFormed(r);
    assert WellFormed(b) && Balanced(b) && WellFormed(d) && Balanced(d);
    var left := MkNode(pk, pv, a, b);
    assert Balanced(left);
    RightRightPreserves(node);
  }

  lemma RightLeftRestores<V>(node: Tree<V>)
    requires node.Balance() == -2 && node.right.Balance() == 1
    requires WellFormed(node) && Balanced(node.left) && Balanced(node.right)
    ensures IsAVL(BalanceRightLeft(node))
    ensures BalanceRightLeft(node).Height() == node.Height() - 1
  {
    var Node(pk, pv, a, r, _) := node;
    var Node(rk, rv, m, d, _) := r;
    assert WellFormed(a) && WellFormed(r);
    assert WellFormed(m) && Balanced(m) && WellFormed(d) && Balanced(d);
    var Node(mk, mv, b, c, _) := m;
    assert WellFormed(b) && Balanced(b) && WellFormed(c) && Balanced(c);
    var h := a.Height();
    assert d.Height() == h && m.Height() == h + 1;
    assert h - 1 <= b.Height() <= h && h - 1 <= c.Height() <= h;
    var left, right := MkNode(pk, pv, a, b), MkNode(rk, rv, c, d);
    assert left.Height() == h + 1 && right.Height() == h + 1;
    assert Balanced(left) && Balanced(right);
    assert BalanceRightLeft(node) == MkNode(mk, mv, left, right);
    RightLeftPreserves(node);
  }

  /**
   * When the heavier child leans neither way, `balance` leaves the node as it
   * is, so its result can keep a balance factor of 2 although both subtrees
   * satisfy the AVL invariant.
   */
  lemma UnrepairedWhenHeavyChildEven<V>(v: V)
    ensures var leaf1, leaf3 := MkNode(1, v, Empty, Empty), MkNode(3, v, Empty, Empty);
            var node := MkNode(4, v, MkNode(2, v, leaf1, leaf3), Empty);
            IsAVL(node.left) && SearchTree(node) &&
            Balance(node) == node && Balance(node).Balance() == 2 && !Balanced(Balance(node))
  {
    var leaf1, leaf3 := MkNode(1, v, Empty, Empty), MkNode(3, v, Empty, Empty);
    var left := MkNode(2, v, leaf1, leaf3);
    assert SearchTree(leaf1) && SearchTree(leaf3);
    assert SearchTree(left);
  }
}
