/**
 * A driver for the factory, not a model of the map's own `put` (whose body is
 * not part of this model): a recursive binary-search-tree insertion that
 * rebuilds every node on the way back up through `create`, so that the
 * balancer runs after every structural change.
 */
module InsertDriver {
  import opened AVLTree
  import opened Factory

  /** Insert or replace the entry for `k`, rebuilding the search path through `create`. */
  function Insert<V>(t: Tree<V>, k: Key, v: V): (r: Tree<V>)
    ensures Keys(r) == Keys(t) + {k}
    ensures (k, v) in Inorder(r)
    ensures WellFormed(t) ==> WellFormed(r)
    decreases t
  {
    match t
    case Empty => CreateLeaf(k, v)
    case Node(tk, tv, l, rt, _) =>
      if k < tk then Create(tk, tv, Insert(l, k, v), rt)
      else if tk < k then Create(tk, tv, l, Insert(rt, k, v))
      else Create(k, v, l, rt)
  }

  /** Every entry whose key is not `k` is in the tree after insertion exactly when it was before. */
  lemma {:induction false} InsertKeepsOtherEntries<V>(t: Tree<V>, k: Key, v: V, e: (Key, V))
    requires e.0 != k
    ensures e in Inorder(Insert(t, k, v)) <==> e in Inorder(t)
  {
    match t
    case Empty =>
    case Node(tk, tv, l, rt, _) =>
      if k < tk {
        InsertKeepsOtherEntries(l, k, v, e);
      } else if tk < k {
        InsertKeepsOtherEntries(rt, k, v, e);
      }
  }

  /** Insertion keeps the search-tree order. */
  lemma {:induction false} InsertKeepsSearchTree<V>(t: Tree<V>, k: Key, v: V)
    requires SearchTree(t)
    ensures SearchTree(Insert(t, k, v))
  {
    match t
    case Empty =>
    case Node(tk, tv, l, rt, _) =>
      if k < tk {
        InsertKeepsSearchTree(l, k, v);
        CreateKeepsSearchTree(tk, tv, Insert(l, k, v), rt);
      } else if tk < k {
        InsertKeepsSearchTree(rt, k, v);
        CreateKeepsSearchTree(tk, tv, l, Insert(rt, k, v));
      } else {
        CreateKeepsSearchTree(k, v, l, rt);
      }
  }

  /**
   * Insertion keeps the AVL invariant and grows the height by at most one;
   * when it does grow a tree of height two or more, the new root leans, which
   * is what lets the parent's `create` pick a rotation.
   */
  lemma {:induction false} InsertKeepsAVL<V>(t: Tree<V>, k: Key, v: V)
    requires IsAVL(t)
    ensures IsAVL(Insert(t, k, v))
    ensures t.Height() <= Insert(t, k, v).Height() <= t.Height() + 1
    ensures Insert(t, k, v).Height() == t.Height() + 1 >= 2 ==> Insert(t, k, v).Balance() != 0
  {
    match t
    case Empty =>
    case Node(tk, tv, l, rt, _) =>
      assert IsAVL(l) && IsAVL(rt);
      if k < tk {
        InsertKeepsAVL(l, k, v);
        CreateKeepsAVL(tk, tv, Insert(l, k, v), rt);
      } else if tk < k {
        InsertKeepsAVL(rt, k, v);
        CreateKeepsAVL(tk, tv, l, Insert(rt, k, v));
      } else {
        CreateKeepsAVL(k, v, l, rt);
      }
  }

  /** Inserting 1, 2 and 3 in that order into the empty tree yields 2 with children 1 and 3. */
  lemma InsertAscendingThree<V>(v1: V, v2: V, v3: V)
    ensures var t := Insert(Insert(Insert(Empty, 1, v1), 2, v2), 3, v3);
            t == Node(2, v2, Node(1, v1, Empty, Empty, 1), Node(3, v3, Empty, Empty, 1), 2) &&
            t.Height() == 2 && t.Balance() == 0
  {
    var t1 := Insert(Empty, 1, v1);
    assert t1 == Node(1, v1, Empty, Empty, 1);
    var t2 := Insert(t1, 2, v2);
    assert Insert(Empty, 2, v2) == Node(2, v2, Empty, Empty, 1);
    assert t2 == Node(1, v1, Empty, Node(2, v2, Empty, Empty, 1), 2);
    assert Insert(t2.right, 3, v3) == Node(2, v2, Empty, Node(3, v3, Empty, Empty, 1), 2);
    CreateRotatesChain(v1, v2, v3);
  }
}
