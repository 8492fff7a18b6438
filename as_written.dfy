/**
 * The balancer and factory of AVLTree.java as the code is written: the
 * setters `left(newLeft)` / `right(newRight)` can only build a node through
 * the factory, because the `Node` constructor is private and the node only
 * knows `constructors.factory`; and the factory's `create` always passes the
 * node through `balance`. So every setter call inside a rotation may itself
 * rotate, and `create`, `balance`, the rotations and the setters call each
 * other.
 *
 * That recursion is bounded here by `fuel`: each setter call made by a
 * rotation spends one unit, and a rotation needed with no fuel left gives
 * `Stuck`. `Stuck` also stands for a rotation that would read a child of an
 * empty tree. A `Built` outcome is exactly what the Java code returns.
 *
 * Trees are written `(P, A, B)` for a node `P` with subtrees `A` and `B`.
 */
module AsWritten {
  import opened AVLTree
  import Balancer
  import Factory

  /** A finished computation, or one that ran out of fuel or read a child of an empty tree. */
  datatype Outcome<V> = Built(tree: Tree<V>) | Stuck
  {
    predicate IsFailure() {
      Stuck?
    }

    function PropagateFailure<U>(): Outcome<U>
      requires Stuck?
    {
      Stuck
    }

    function Extract(): Tree<V>
      requires Built?
    {
      tree
    }
  }

  /**
   * The setter `left(newLeft)`: `create` with the node's key, value and right
   * child. When the new heights differ by at most one it is a plain rebuild.
   */
  function SetLeft<V>(fuel: nat, n: Tree<V>, newLeft: Tree<V>): (r: Outcome<V>)
    requires n.Node?
    ensures r.Built? ==> Inorder(r.tree) == Inorder(newLeft) + [(n.key, n.value)] + Inorder(n.right)
    ensures r.Built? && WellFormed(newLeft) && WellFormed(n.right) ==> WellFormed(r.tree)
    ensures -1 <= newLeft.Height() - n.right.Height() <= 1 ==> r == Built(n.WithLeft(newLeft))
    decreases fuel, 5
  {
    Create(fuel, n.key, n.value, newLeft, n.right)
  }

  /** The setter `right(newRight)`: `create` with the node's key, value and left child. */
  function SetRight<V>(fuel: nat, n: Tree<V>, newRight: Tree<V>): (r: Outcome<V>)
    requires n.Node?
    ensures r.Built? ==> Inorder(r.tree) == Inorder(n.left) + [(n.key, n.value)] + Inorder(newRight)
    ensures r.Built? && WellFormed(n.left) && WellFormed(newRight) ==> WellFormed(r.tree)
    ensures -1 <= n.left.Height() - newRight.Height() <= 1 ==> r == Built(n.WithRight(newRight))
    decreases fuel, 5
  {
    Create(fuel, n.key, n.value, n.left, newRight)
  }

  /** `create(comparator, key, value, left, right)`: the raw node passed through `balance`. */
  function Create<V>(fuel: nat, k: Key, v: V, l: Tree<V>, r: Tree<V>): (t: Outcome<V>)
    ensures t.Built? ==> Inorder(t.tree) == Inorder(l) + [(k, v)] + Inorder(r)
    ensures t.Built? && WellFormed(l) && WellFormed(r) ==> WellFormed(t.tree)
    ensures -1 <= l.Height() - r.Height() <= 1 ==> t == Built(MkNode(k, v, l, r))
    decreases fuel, 4
  {
    Balance(fuel, MkNode(k, v, l, r))
  }

  /** `balance`: a node whose balance factor is not 2 or -2 is returned as is. */
  function Balance<V>(fuel: nat, node: Tree<V>): (r: Outcome<V>)
    ensures r.Built? ==> Inorder(r.tree) == Inorder(node)
    ensures r.Built? && WellFormed(node) ==> WellFormed(r.tree)
    ensures node.Balance() != 2 && node.Balance() != -2 ==> r == Built(node)
    decreases fuel, 3
  {
    if node.Balance() == -2 then (if fuel == 0 then Stuck else BalanceRight(fuel, node))
    else if node.Balance() == 2 then (if fuel == 0 then Stuck else BalanceLeft(fuel, node))
    else Built(node)
  }

  /** `balanceLeft`: the case selection of the left-heavy side. */
  function BalanceLeft<V>(fuel: nat, node: Tree<V>): (r: Outcome<V>)
    requires fuel > 0 && node.Balance() == 2
    ensures r.Built? ==> Inorder(r.tree) == Inorder(node)
    ensures r.Built? && WellFormed(node) ==> WellFormed(r.tree)
    ensures node.left.Balance() != 1 && node.left.Balance() != -1 ==> r == Built(node)
    decreases fuel, 2
  {
    if node.left.Balance() == -1 then BalanceLeftRight(fuel, node)
    else if node.left.Balance() == 1 then BalanceLeftLeft(fuel, node)
    else Built(node)
  }

  /** `balanceRight`: the case selection of the right-heavy side. */
  function BalanceRight<V>(fuel: nat, node: Tree<V>): (r: Outcome<V>)
    requires fuel > 0 && node.Balance() == -2
    ensures r.Built? ==> Inorder(r.tree) == Inorder(node)
    ensures r.Built? && WellFormed(node) ==> WellFormed(r.tree)
    ensures node.right.Balance() != 1 && node.right.Balance() != -1 ==> r == Built(node)
    decreases fuel, 2
  {
    if node.right.Balance() == 1 then BalanceRightLeft(fuel, node)
    else if node.right.Balance() == -1 then BalanceRightRight(fuel, node)
    else Built(node)
  }

  /** `balanceLeftLeft`: `five = parent.left(c)`, then `parent.left().right(five)`. */
  function BalanceLeftLeft<V>(fuel: nat, parent: Tree<V>): (r: Outcome<V>)
    requires fuel > 0 && parent.Node? && parent.left.Node?
    ensures r.Built? ==> Inorder(r.tree) == Inorder(parent)
    ensures r.Built? && WellFormed(parent) ==> WellFormed(r.tree)
    decreases fuel, 0
  {
    var l := parent.left;
    var c := l.right;
    var five :- SetLeft(fuel - 1, parent, c);
    Balancer.Regroup(Inorder(l.left), (l.key, l.value), Inorder(c), (parent.key, parent.value), Inorder(parent.right));
    assert WellFormed(parent) ==> WellFormed(l) && WellFormed(parent.right);
    SetRight(fuel - 1, l, five)
  }

  /**
   * `balanceLeftRight`: `three = parent.left().right(b)`,
   * `four = parent.left().right().left(three)`, then `balanceLeftLeft` of
   * `parent.left(four)`.
   */
  function BalanceLeftRight<V>(fuel: nat, parent: Tree<V>): (r: Outcome<V>)
    requires fuel > 0 && parent.Node? && parent.left.Node? && parent.left.right.Node?
    ensures r.Built? ==> Inorder(r.tree) == Inorder(parent)
    ensures r.Built? && WellFormed(parent) ==> WellFormed(r.tree)
    decreases fuel, 1
  {
    var l := parent.left;
    var m := l.right;
    var b := m.left;
    var three :- SetRight(fuel - 1, l, b);
    var four :- SetLeft(fuel - 1, m, three);
    var z :- SetLeft(fuel - 1, parent, four);
    Balancer.Regroup(Inorder(l.left), (l.key, l.value), Inorder(b), (m.key, m.value), Inorder(m.right));
    assert WellFormed(parent) ==> WellFormed(l) && WellFormed(parent.right);
    assert WellFormed(l) ==> WellFormed(m);
    assert Inorder(m) == Inorder(b) + [(m.key, m.value)] + Inorder(m.right);
    assert Inorder(parent) == (Inorder(l.left) + [(l.key, l.value)] + Inorder(m)) + [(parent.key, parent.value)] + Inorder(parent.right);
    if z.Node? && z.left.Node? then BalanceLeftLeft(fuel, z) else Stuck
  }

  /** `balanceRightRight`: `three = parent.right(b)`, then `parent.right().left(three)`. */
  function BalanceRightRight<V>(fuel: nat, parent: Tree<V>): (r: Outcome<V>)
    requires fuel > 0 && parent.Node? && parent.right.Node?
    ensures r.Built? ==> Inorder(r.tree) == Inorder(parent)
    ensures r.Built? && WellFormed(parent) ==> WellFormed(r.tree)
    decreases fuel, 0
  {
    var rt := parent.right;
    var b := rt.left;
    var three :- SetRight(fuel - 1, parent, b);
    Balancer.Regroup(Inorder(parent.left), (parent.key, parent.value), Inorder(b), (rt.key, rt.value), Inorder(rt.right));
    assert WellFormed(parent) ==> WellFormed(rt) && WellFormed(parent.left);
    SetLeft(fuel - 1, rt, three)
  }

  /**
   * `balanceRightLeft`: `five = parent.right().left(c)`,
   * `four = parent.right().left().right(five)`, then `balanceRightRight` of
   * `parent.right(four)`.
   */
  function BalanceRightLeft<V>(fuel: nat, parent: Tree<V>): (r: Outcome<V>)
    requires fuel > 0 && parent.Node? && parent.right.Node? && parent.right.left.Node?
    ensures r.Built? ==> Inorder(r.tree) == Inorder(parent)
    ensures r.Built? && WellFormed(parent) ==> WellFormed(r.tree)
    decreases fuel, 1
  {
    var rt := parent.right;
    var m := rt.left;
    var c := m.right;
    var five :- SetLeft(fuel - 1, rt, c);
    var four :- SetRight(fuel - 1, m, five);
    var z :- SetRight(fuel - 1, parent, four);
    Balancer.Regroup(Inorder(m.left), (m.key, m.value), Inorder(c), (rt.key, rt.value), Inorder(rt.right));
    assert WellFormed(parent) ==> WellFormed(rt) && WellFormed(parent.left);
    assert WellFormed(rt) ==> WellFormed(m);
    assert Inorder(m) == Inorder(m.left) + [(m.key, m.value)] + Inorder(c);
    assert Inorder(parent) == Inorder(parent.left) + [(parent.key, parent.value)] + (Inorder(m) + [(rt.key, rt.value)] + Inorder(rt.right));
    if z.Node? && z.right.Node? then BalanceRightRight(fuel, z) else Stuck
  }

  /**
   * On a node the balancer hands to `balanceLeftLeft`, neither setter call
   * sees an imbalance, so the rotation built through `create` is the plain
   * single right rotation.
   */
  lemma LeftLeftAgrees<V>(fuel: nat, node: Tree<V>)
    requires fuel > 0 && node.Balance() == 2 && node.left.Balance() == 1
    requires WellFormed(node)
    ensures BalanceLeftLeft(fuel, node) == Built(Balancer.BalanceLeftLeft(node))
  {
    var Node(pk, pv, l, d, _) := node;
    assert WellFormed(l);
    assert SetLeft(fuel - 1, node, l.right) == Built(MkNode(pk, pv, l.right, d));
  }

  /** The mirror: the rotation built through `create` is the plain single left rotation. */
  lemma RightRightAgrees<V>(fuel: nat, node: Tree<V>)
    requires fuel > 0 && node.Balance() == -2 && node.right.Balance() == -1
    requires WellFormed(node)
    ensures BalanceRightRight(fuel, node) == Built(Balancer.BalanceRightRight(node))
  {
    var Node(pk, pv, a, r, _) := node;
    assert WellFormed(r);
    assert SetRight(fuel - 1, node, r.left) == Built(MkNode(pk, pv, a, r.left));
  }

  /**
   * When the middle node `M` of `(P, (L, A, (M, B, C)), D)` leans inward
   * (balance 1), the setter calls build two nodes of balance 2 that `balance`
   * leaves alone, and the result is the plain double rotation
   * `(M, (L, A, B), (P, C, D))`.
   */
  lemma LeftRightAgreesWhenInward<V>(fuel: nat, node: Tree<V>)
    requires fuel >= 2 && node.Balance() == 2 && node.left.Balance() == -1
    requires node.left.right.Balance() == 1
    requires WellFormed(node)
    ensures BalanceLeftRight(fuel, node) == Built(Balancer.BalanceLeftRight(node))
  {
    var Node(pk, pv, l, d, _) := node;
    var Node(lk, lv, a, m, _) := l;
    assert WellFormed(l) && WellFormed(m);
    var Node(mk, mv, b, c, _) := m;
    var three := MkNode(lk, lv, a, b);
    assert SetRight(fuel - 1, l, b) == Built(three);
    var four := MkNode(mk, mv, three, c);
    assert Balance(fuel - 1, four) == Built(four);
    assert SetLeft(fuel - 1, m, three) == Built(four);
    var z := MkNode(pk, pv, four, d);
    assert Balance(fuel - 1, z) == Built(z);
    assert SetLeft(fuel - 1, node, four) == Built(z);
    var five := MkNode(pk, pv, c, d);
    assert SetLeft(fuel - 1, z, c) == Built(five);
    assert SetRight(fuel - 1, four, five) == Built(MkNode(mk, mv, three, five));
  }

  /** The mirror: a middle node leaning inward (balance -1) gives the plain right-left double rotation. */
  lemma RightLeftAgreesWhenInward<V>(fuel: nat, node: Tree<V>)
    requires fuel >= 2 && node.Balance() == -2 && node.right.Balance() == 1
    requires node.right.left.Balance() == -1
    requires WellFormed(node)
    ensures BalanceRightLeft(fuel, node) == Built(Balancer.BalanceRightLeft(node))
  {
    var Node(pk, pv, a, r, _) := node;
    var Node(rk, rv, m, d, _) := r;
    assert WellFormed(r) && WellFormed(m);
    var Node(mk, mv, b, c, _) := m;
    var five := MkNode(rk, rv, c, d);
    assert SetLeft(fuel - 1, r, c) == Built(five);
    var four := MkNode(mk, mv, b, five);
    assert Balance(fuel - 1, four) == Built(four);
    assert SetRight(fuel - 1, m, five) == Built(four);
    var z := MkNode(pk, pv, a, four);
    assert Balance(fuel - 1, z) == Built(z);
    assert SetRight(fuel - 1, node, four) == Built(z);
    var three := MkNode(pk, pv, a, b);
    assert SetRight(fuel - 1, z, b) == Built(three);
    assert SetLeft(fuel - 1, four, three) == Built(MkNode(mk, mv, three, five));
  }

  /**
   * When the middle node `M` is even (balance 0), as after inserting 3, 1, 2,
   * `parent.left(four)` already rotates to the intended tree, the final
   * `balanceLeftLeft` tips it over to `(L, A, (M, B, (P, C, D)))`, and its
   * setter's `create` rotates that back. The result is still the plain double
   * rotation.
   */
  lemma LeftRightAgreesWhenEven<V>(fuel: nat, node: Tree<V>)
    requires fuel >= 2 && node.Balance() == 2 && node.left.Balance() == -1
    requires node.left.right.Balance() == 0
    requires WellFormed(node)
    ensures BalanceLeftRight(fuel, node) == Built(Balancer.BalanceLeftRight(node))
  {
    var Node(pk, pv, l, d, _) := node;
    var Node(lk, lv, a, m, _) := l;
    assert WellFormed(l) && WellFormed(m);
    var Node(mk, mv, b, c, _) := m;
    var three := MkNode(lk, lv, a, b);
    assert SetRight(fuel - 1, l, b) == Built(three);
    var four := MkNode(mk, mv, three, c);
    assert SetLeft(fuel - 1, m, three) == Built(four);
    var x := MkNode(pk, pv, four, d);
    var y := MkNode(mk, mv, three, MkNode(pk, pv, c, d));
    LeftLeftAgrees(fuel - 1, x);
    assert Balance(fuel - 1, x) == Built(y);
    assert SetLeft(fuel - 1, node, four) == Built(y);
    var tipped := MkNode(mk, mv, b, MkNode(pk, pv, c, d));
    assert SetLeft(fuel - 1, y, b) == Built(tipped);
    var x2 := MkNode(lk, lv, a, tipped);
    RightRightAgrees(fuel - 1, x2);
    assert Balance(fuel - 1, x2) == Built(y);
    assert SetRight(fuel - 1, three, tipped) == Built(y);
  }

  /** The mirror: with an even middle node the right-left case still ends at the plain double rotation. */
  lemma RightLeftAgreesWhenEven<V>(fuel: nat, node: Tree<V>)
    requires fuel >= 2 && node.Balance() == -2 && node.right.Balance() == 1
    requires node.right.left.Balance() == 0
    requires WellFormed(node)
    ensures BalanceRightLeft(fuel, node) == Built(Balancer.BalanceRightLeft(node))
  {
    var Node(pk, pv, a, r, _) := node;
    var Node(rk, rv, m, d, _) := r;
    assert WellFormed(r) && WellFormed(m);
    var Node(mk, mv, b, c, _) := m;
    var five := MkNode(rk, rv, c, d);
    assert SetLeft(fuel - 1, r, c) == Built(five);
    var four := MkNode(mk, mv, b, five);
    assert SetRight(fuel - 1, m, five) == Built(four);
    var x := MkNode(pk, pv, a, four);
    var y := MkNode(mk, mv, MkNode(pk, pv, a, b), five);
    RightRightAgrees(fuel - 1, x);
    assert Balance(fuel - 1, x) == Built(y);
    assert SetRight(fuel - 1, node, four) == Built(y);
    var tipped := MkNode(mk, mv, MkNode(pk, pv, a, b), c);
    assert SetRight(fuel - 1, y, c) == Built(tipped);
    var x2 := MkNode(rk, rv, tipped, d);
    LeftLeftAgrees(fuel - 1, x2);
    assert Balance(fuel - 1, x2) == Built(y);
    assert SetLeft(fuel - 1, five, tipped) == Built(y);
  }

  /**
   * Whenever the middle node leans outward (balance -1), the code as written
   * returns `(L, A, (M, B, (P, C, D)))`: `parent.left(four)` already rotates
   * to the intended tree, the final `balanceLeftLeft` tips it over, and the
   * two `create` calls of its setters meet a heavy child of balance 0 and -2,
   * which `balanceRight` leaves alone. The result leans by -2.
   */
  lemma LeftRightFailsWhenOutward<V>(fuel: nat, node: Tree<V>)
    requires fuel >= 2 && node.Balance() == 2 && node.left.Balance() == -1
    requires node.left.right.Balance() == -1
    requires WellFormed(node)
    ensures var l, m := node.left, node.left.right;
            var wrong := MkNode(l.key, l.value, l.left, MkNode(m.key, m.value, m.left, MkNode(node.key, node.value, m.right, node.right)));
            BalanceLeftRight(fuel, node) == Built(wrong) &&
            wrong.Height() == node.Height() && wrong.Balance() == -2
  {
    var Node(pk, pv, l, d, _) := node;
    var Node(lk, lv, a, m, _) := l;
    assert WellFormed(l) && WellFormed(m);
    var Node(mk, mv, b, c, _) := m;
    var three := MkNode(lk, lv, a, b);
    assert SetRight(fuel - 1, l, b) == Built(three);
    var four := MkNode(mk, mv, three, c);
    assert SetLeft(fuel - 1, m, three) == Built(four);
    var x := MkNode(pk, pv, four, d);
    var pcd := MkNode(pk, pv, c, d);
    var y := MkNode(mk, mv, three, pcd);
    LeftLeftAgrees(fuel - 1, x);
    assert Balance(fuel - 1, x) == Built(y);
    assert SetLeft(fuel - 1, node, four) == Built(y);
    var tipped := MkNode(mk, mv, b, pcd);
    assert pcd.Balance() == 0 && tipped.Balance() == -2;
    assert Balance(fuel - 1, tipped) == Built(tipped);
    assert SetLeft(fuel - 1, y, b) == Built(tipped);
    var wrong := MkNode(lk, lv, a, tipped);
    assert Balance(fuel - 1, wrong) == Built(wrong);
    assert SetRight(fuel - 1, three, tipped) == Built(wrong);
  }

  /** The mirror: a middle node of balance 1 gives `(R, (M, (P, A, B), C), D)`, which leans by 2. */
  lemma RightLeftFailsWhenOutward<V>(fuel: nat, node: Tree<V>)
    requires fuel >= 2 && node.Balance() == -2 && node.right.Balance() == 1
    requires node.right.left.Balance() == 1
    requires WellFormed(node)
    ensures var r, m := node.right, node.right.left;
            var wrong := MkNode(r.key, r.value, MkNode(m.key, m.value, MkNode(node.key, node.value, node.left, m.left), m.right), r.right);
            BalanceRightLeft(fuel, node) == Built(wrong) &&
            wrong.Height() == node.Height() && wrong.Balance() == 2
  {
    var Node(pk, pv, a, r, _) := node;
    var Node(rk, rv, m, d, _) := r;
    assert WellFormed(r) && WellFormed(m);
    var Node(mk, mv, b, c, _) := m;
    var five := MkNode(rk, rv, c, d);
    assert SetLeft(fuel - 1, r, c) == Built(five);
    var four := MkNode(mk, mv, b, five);
    assert SetRight(fuel - 1, m, five) == Built(four);
    var x := MkNode(pk, pv, a, four);
    var pab := MkNode(pk, pv, a, b);
    var y := MkNode(mk, mv, pab, five);
    RightRightAgrees(fuel - 1, x);
    assert Balance(fuel - 1, x) == Built(y);
    assert SetRight(fuel - 1, node, four) == Built(y);
    var tipped := MkNode(mk, mv, pab, c);
    assert pab.Balance() == 0 && tipped.Balance() == 2;
    assert Balance(fuel - 1, tipped) == Built(tipped);
    assert SetRight(fuel - 1, y, c) == Built(tipped);
    var wrong := MkNode(rk, rv, tipped, d);
    assert Balance(fuel - 1, wrong) == Built(wrong);
    assert SetLeft(fuel - 1, five, tipped) == Built(wrong);
  }

  /** The double-rotation case whose middle node leans away from the inner side. */
  predicate OutwardMiddle<V>(node: Tree<V>) {
    (node.Balance() == 2 && node.left.Balance() == -1 && node.left.right.Balance() == -1) ||
    (node.Balance() == -2 && node.right.Balance() == 1 && node.right.left.Balance() == 1)
  }

  /**
   * On every node where a rotation applies and both subtrees are balanced,
   * `balance` as written returns the intended rotation, an AVL tree one level
   * lower, exactly when the middle node of a double rotation does not lean
   * outward; when it does, the result is not balanced and no lower.
   */
  lemma BalanceAgreesIffNotOutward<V>(fuel: nat, node: Tree<V>)
    requires fuel >= 2 && node.Node? && Balancer.Rotates(node) && WellFormed(node)
    requires Balanced(node.left) && Balanced(node.right)
    ensures Balance(fuel, node) == Built(Balancer.Balance(node)) <==> !OutwardMiddle(node)
    ensures !OutwardMiddle(node) ==>
              Balance(fuel, node).Built? && IsAVL(Balance(fuel, node).tree) &&
              Balance(fuel, node).tree.Height() == node.Height() - 1
    ensures OutwardMiddle(node) ==>
              Balance(fuel, node).Built? && !Balanced(Balance(fuel, node).tree) &&
              Balance(fuel, node).tree.Height() == node.Height()
  {
    Balancer.BalanceRestoresAVL(node);
    if node.Balance() == 2 {
      var l := node.left;
      if l.Balance() == 1 {
        LeftLeftAgrees(fuel, node);
      } else {
        assert Balanced(l.right);
        var mb := l.right.Balance();
        if mb == 1 {
          LeftRightAgreesWhenInward(fuel, node);
        } else if mb == 0 {
          LeftRightAgreesWhenEven(fuel, node);
        } else {
          LeftRightFailsWhenOutward(fuel, node);
        }
      }
    } else {
      var r := node.right;
      if r.Balance() == -1 {
        RightRightAgrees(fuel, node);
      } else {
        assert Balanced(r.left);
        var mb := r.left.Balance();
        if mb == -1 {
          RightLeftAgreesWhenInward(fuel, node);
        } else if mb == 0 {
          RightLeftAgreesWhenEven(fuel, node);
        } else {
          RightLeftFailsWhenOutward(fuel, node);
        }
      }
    }
  }

  /** `create` as written keeps the search-tree order, because it keeps the in-order entries. */
  lemma CreateKeepsSearchTree<V>(fuel: nat, k: Key, v: V, l: Tree<V>, r: Tree<V>)
    requires SearchTree(l) && SearchTree(r)
    requires forall x :: x in Keys(l) ==> x < k
    requires forall x :: x in Keys(r) ==> k < x
    ensures Create(fuel, k, v, l, r).Built? ==> SearchTree(Create(fuel, k, v, l, r).tree)
  {
    var t := Create(fuel, k, v, l, r);
    if t.Built? {
      SearchTreeIffAscending(MkNode(k, v, l, r));
      SearchTreeIffAscending(t.tree);
    }
  }

  /** The input of the left-right counterexample: an AVL left subtree and search-tree order. */
  lemma LeftRightOutwardInput<V>(v: V)
    ensures var l := Node(2, v, Node(1, v, Empty, Empty, 1), Node(3, v, Empty, Node(4, v, Empty, Empty, 1), 2), 3);
            IsAVL(l) && SearchTree(Node(5, v, l, Node(6, v, Empty, Empty, 1), 4))
  {
    var leaf1, leaf4, leaf6 := Node(1, v, Empty, Empty, 1), Node(4, v, Empty, Empty, 1), Node(6, v, Empty, Empty, 1);
    var m := Node(3, v, Empty, leaf4, 2);
    var l := Node(2, v, leaf1, m, 3);
    assert Keys(leaf1) == {1} && Keys(leaf4) == {4} && Keys(leaf6) == {6};
    assert SearchTree(leaf1) && SearchTree(leaf4) && SearchTree(leaf6);
    assert Keys(m) == {3, 4} && SearchTree(m);
    assert Keys(l) == {1, 2, 3, 4} && SearchTree(l);
  }

  /** The input of the right-left counterexample: an AVL right subtree and search-tree order. */
  lemma RightLeftOutwardInput<V>(v: V)
    ensures var r := Node(5, v, Node(4, v, Node(3, v, Empty, Empty, 1), Empty, 2), Node(6, v, Empty, Empty, 1), 3);
            IsAVL(r) && SearchTree(Node(2, v, Node(1, v, Empty, Empty, 1), r, 4))
  {
    var leaf1, leaf3, leaf6 := Node(1, v, Empty, Empty, 1), Node(3, v, Empty, Empty, 1), Node(6, v, Empty, Empty, 1);
    var m := Node(4, v, leaf3, Empty, 2);
    var r := Node(5, v, m, leaf6, 3);
    assert Keys(leaf1) == {1} && Keys(leaf3) == {3} && Keys(leaf6) == {6};
    assert SearchTree(leaf1) && SearchTree(leaf3) && SearchTree(leaf6);
    assert Keys(m) == {3, 4} && SearchTree(m);
    assert Keys(r) == {3, 4, 5, 6} && SearchTree(r);
    assert WellFormed(leaf3) && WellFormed(leaf6);
    assert m.Height() == 2 && WellFormed(m);
    assert WellFormed(r);
    assert Balanced(leaf3) && Balanced(leaf6);
    assert Balanced(m);
    assert Balanced(r);
  }

  /**
   * When the middle node leans outward, the left-right rotation built through
   * `create` goes wrong. `create(5, (2, 1, (3, -, 4)), 6)` has two AVL
   * subtrees and is a search tree, yet it returns `(2, 1, (3, -, (5, 4, 6)))`:
   * height 4, like the unbalanced input, and balance -2. The plain double
   * rotation gives the AVL tree `(3, (2, 1, -), (5, 4, 6))` of height 3.
   */
  lemma LeftRightOutwardCounterexample<V>(fuel: nat, v: V)
    requires fuel >= 2
    ensures var leaf1, leaf4, leaf6 := Node(1, v, Empty, Empty, 1), Node(4, v, Empty, Empty, 1), Node(6, v, Empty, Empty, 1);
            var l := Node(2, v, leaf1, Node(3, v, Empty, leaf4, 2), 3);
            var wrong := Node(2, v, leaf1, Node(3, v, Empty, Node(5, v, leaf4, leaf6, 2), 3), 4);
            IsAVL(l) && SearchTree(MkNode(5, v, l, leaf6)) &&
            Create(fuel, 5, v, l, leaf6) == Built(wrong) &&
            wrong.Height() == 4 && wrong.Balance() == -2 && !Balanced(wrong) &&
            Factory.Create(5, v, l, leaf6) == Node(3, v, Node(2, v, leaf1, Empty, 2), Node(5, v, leaf4, leaf6, 2), 3)
  {
    var leaf1, leaf4, leaf6 := Node(1, v, Empty, Empty, 1), Node(4, v, Empty, Empty, 1), Node(6, v, Empty, Empty, 1);
    var m := Node(3, v, Empty, leaf4, 2);
    var l := Node(2, v, leaf1, m, 3);
    var p := Node(5, v, l, leaf6, 4);
    assert MkNode(5, v, l, leaf6) == p;
    LeftRightOutwardInput(v);
    var three := Node(2, v, leaf1, Empty, 2);
    assert SetRight(fuel - 1, l, Empty) == Built(three);
    var four := Node(3, v, three, leaf4, 3);
    assert SetLeft(fuel - 1, m, three) == Built(four);
    var x := Node(5, v, four, leaf6, 4);
    var five := Node(5, v, leaf4, leaf6, 2);
    var y := Node(3, v, three, five, 3);
    assert SetLeft(fuel - 2, x, leaf4) == Built(five);
    assert SetRight(fuel - 2, four, five) == Built(y);
    assert BalanceLeftLeft(fuel - 1, x) == Built(y);
    assert Balance(fuel - 1, x) == Built(y);
    assert SetLeft(fuel - 1, p, four) == Built(y);
    var five' := Node(3, v, Empty, five, 3);
    assert Balance(fuel - 1, five') == Built(five');
    assert SetLeft(fuel - 1, y, Empty) == Built(five');
    var wrong := Node(2, v, leaf1, five', 4);
    assert Balance(fuel - 1, wrong) == Built(wrong);
    assert SetRight(fuel - 1, three, five') == Built(wrong);
    assert BalanceLeftLeft(fuel, y) == Built(wrong);
    assert BalanceLeftRight(fuel, p) == Built(wrong);
    assert Balance(fuel, p) == Built(wrong);
  }

  /**
   * The mirror: `create(2, 1, (5, (4, 3, -), 6))` returns
   * `(5, (4, (2, 1, 3), -), 6)` of height 4 and balance 2, where the plain
   * double rotation gives the AVL tree `(4, (2, 1, 3), (5, -, 6))`.
   */
  lemma RightLeftOutwardCounterexample<V>(fuel: nat, v: V)
    requires fuel >= 2
    ensures var leaf1, leaf3, leaf6 := Node(1, v, Empty, Empty, 1), Node(3, v, Empty, Empty, 1), Node(6, v, Empty, Empty, 1);
            var r := Node(5, v, Node(4, v, leaf3, Empty, 2), leaf6, 3);
            var wrong := Node(5, v, Node(4, v, Node(2, v, leaf1, leaf3, 2), Empty, 3), leaf6, 4);
            IsAVL(r) && SearchTree(MkNode(2, v, leaf1, r)) &&
            Create(fuel, 2, v, leaf1, r) == Built(wrong) &&
            wrong.Height() == 4 && wrong.Balance() == 2 && !Balanced(wrong) &&
            Factory.Create(2, v, leaf1, r) == Node(4, v, Node(2, v, leaf1, leaf3, 2), Node(5, v, Empty, leaf6, 2), 3)
  {
    var leaf1, leaf3, leaf6 := Node(1, v, Empty, Empty, 1), Node(3, v, Empty, Empty, 1), Node(6, v, Empty, Empty, 1);
    var m := Node(4, v, leaf3, Empty, 2);
    var r := Node(5, v, m, leaf6, 3);
    var p := Node(2, v, leaf1, r, 4);
    assert MkNode(2, v, leaf1, r) == p;
    RightLeftOutwardInput(v);
    var five := Node(5, v, Empty, leaf6, 2);
    assert SetLeft(fuel - 1, r, Empty) == Built(five);
    var four := Node(4, v, leaf3, five, 3);
    assert SetRight(fuel - 1, m, five) == Built(four);
    var x := Node(2, v, leaf1, four, 4);
    var three := Node(2, v, leaf1, leaf3, 2);
    var y := Node(4, v, three, five, 3);
    assert SetRight(fuel - 2, x, leaf3) == Built(three);
    assert SetLeft(fuel - 2, four, three) == Built(y);
    assert BalanceRightRight(fuel - 1, x) == Built(y);
    assert Balance(fuel - 1, x) == Built(y);
    assert SetRight(fuel - 1, p, four) == Built(y);
    var three' := Node(4, v, three, Empty, 3);
    assert Balance(fuel - 1, three') == Built(three');
    assert SetRight(fuel - 1, y, Empty) == Built(three');
    var wrong := Node(5, v, three', leaf6, 4);
    assert Balance(fuel - 1, wrong) == Built(wrong);
    assert SetLeft(fuel - 1, five, three') == Built(wrong);
    assert BalanceRightRight(fuel, y) == Built(wrong);
    assert BalanceRightLeft(fuel, p) == Built(wrong);
    assert Balance(fuel, p) == Built(wrong);
  }
}
