/**
 * The factory of the AVL tree map (`AVLTree.constructors`): the only way to
 * build a non-empty node. Every node it builds goes through the balancer
 * before it is returned.
 */
module Factory {
  import opened AVLTree
  import Balancer

  /** `create(comparator)`: the empty tree, of height 0 and balance 0, holding no entry. */
  function CreateEmpty<V>(): (t: Tree<V>)
    ensures t.Height() == 0 && t.Balance() == 0
    ensures Inorder(t) == [] && IsAVL(t) && SearchTree(t)
  {
    Empty
  }

  /**
   * `create(comparator, key, value, left, right)`: a raw node passed through
   * `balance`. The result holds the entries of `l`, then `(k, v)`, then those
   * of `r`; when the two heights differ by at most one no rotation happens.
   */
  function Create<V>(k: Key, v: V, l: Tree<V>, r: Tree<V>): (t: Tree<V>)
    ensures Inorder(t) == Inorder(l) + [(k, v)] + Inorder(r)
    ensures Keys(t) == Keys(l) + {k} + Keys(r)
    ensures WellFormed(l) && WellFormed(r) ==> WellFormed(t)
    ensures -1 <= l.Height() - r.Height() <= 1 ==> t == MkNode(k, v, l, r)
  {
    Balancer.Balance(MkNode(k, v, l, r))
  }

  /** `create(comparator, key, value)`: a single entry between two empty trees, never rotated. */
  function CreateLeaf<V>(k: Key, v: V): (t: Tree<V>)
    ensures t == Node(k, v, Empty, Empty, 1)
    ensures t.Height() == 1 && t.Balance() == 0
    ensures Inorder(t) == [(k, v)] && IsAVL(t)
  {
    Create(k, v, CreateEmpty(), CreateEmpty())
  }

  /** A node built from two search trees separated by its key is a search tree. */
  lemma CreateKeepsSearchTree<V>(k: Key, v: V, l: Tree<V>, r: Tree<V>)
    requires SearchTree(l) && SearchTree(r)
    requires forall x :: x in Keys(l) ==> x < k
    requires forall x :: x in Keys(r) ==> k < x
    ensures SearchTree(Create(k, v, l, r))
  {
    Balancer.BalanceKeepsSearchTree(MkNode(k, v, l, r));
  }

  /**
   * From two AVL subtrees whose heights differ by at most two, and whose
   * heavier child leans by one when they differ by two, `create` builds an AVL
   * tree. Its height is one more than the taller subtree's when no rotation is
   * needed, and equal to it after a rotation.
   */
  lemma CreateKeepsAVL<V>(k: Key, v: V, l: Tree<V>, r: Tree<V>)
    requires IsAVL(l) && IsAVL(r)
    requires -2 <= l.Height() - r.Height() <= 2
    requires l.Height() - r.Height() == 2 ==> l.Balance() != 0
    requires l.Height() - r.Height() == -2 ==> r.Balance() != 0
    ensures IsAVL(Create(k, v, l, r))
    ensures Create(k, v, l, r).Height() ==
              if -1 <= l.Height() - r.Height() <= 1 then Max(l.Height(), r.Height()) + 1
              else Max(l.Height(), r.Height())
  {
    var node := MkNode(k, v, l, r);
    if l.Height() - r.Height() == 2 {
      assert -1 <= l.Balance() <= 1;
      Balancer.BalanceRestoresAVL(node);
    } else if l.Height() - r.Height() == -2 {
      assert -1 <= r.Balance() <= 1;
      Balancer.BalanceRestoresAVL(node);
    }
  }

  /**
   * A right-leaning chain 1, 2, 3 built through `create` becomes 2 with
   * children 1 and 3, of height 2 and balance 0, by the single left rotation.
   */
  lemma CreateRotatesChain<V>(v1: V, v2: V, v3: V)
    ensures var t := Create(1, v1, Empty, Node(2, v2, Empty, Node(3, v3, Empty, Empty, 1), 2));
            t == Node(2, v2, Node(1, v1, Empty, Empty, 1), Node(3, v3, Empty, Empty, 1), 2) &&
            t.Height() == 2 && t.Balance() == 0
  {
    var node := MkNode(1, v1, Empty, Node(2, v2, Empty, Node(3, v3, Empty, Empty, 1), 2));
    assert node.Balance() == -2 && node.right.Balance() == -1;
    assert Balancer.Balance(node) == Balancer.BalanceRightRight(node);
  }
}
