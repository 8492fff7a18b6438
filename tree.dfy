/**
 * The two node variants of the persistent AVL tree map: `Empty` and `Node`,
 * their `height()` and `balance()` accessors, the raw `Node` constructor that
 * caches the height, and raw rebuilds `WithLeft` / `WithRight` that replace one
 * child and recompute the height without rebalancing.
 *
 * Besides the data model this module defines the views used to state what the
 * balancer does: the in-order sequence of entries, the key set, the
 * search-tree order, the true depth of a tree and the AVL shape.
 *
 * The comparator of `AVLTree.java` is replaced by the fixed total order `<` on
 * integer keys; values are of an arbitrary type `V`.
 */
module AVLTree {

  type Key = int

  function Max(a: int, b: int): int {
    if a < b then b else a
  }

  /** An immutable tree value. A `Node` caches its height in `height`. */
  datatype Tree<V> =
    | Empty
    | Node(key: Key, value: V, left: Tree<V>, right: Tree<V>, height: nat)
  {
    /** `height()`: 0 for `Empty`, the cached field for a `Node`. */
    function Height(): nat {
      if Empty? then 0 else height
    }

    /** `balance()`: 0 for `Empty`; left height minus right height for a `Node`. */
    function Balance(): int {
      if Empty? then 0 else left.Height() - right.Height()
    }

    /**
     * The node with its left child replaced: same key, value and right child,
     * height recomputed, no rebalancing. The setter `left(newLeft)` yields
     * exactly this when the new children's heights differ by at most one.
     */
    function WithLeft(newLeft: Tree<V>): (r: Tree<V>)
      requires Node?
      ensures r.Node? && r.key == key && r.value == value
      ensures r.left == newLeft && r.right == right
      ensures r.Height() == Max(newLeft.Height(), right.Height()) + 1
      ensures Inorder(r) == Inorder(newLeft) + [(key, value)] + Inorder(right)
    {
      MkNode(key, value, newLeft, right)
    }

    /**
     * The node with its right child replaced: same key, value and left child,
     * height recomputed, no rebalancing. The setter `right(newRight)` yields
     * exactly this when the new children's heights differ by at most one.
     */
    function WithRight(newRight: Tree<V>): (r: Tree<V>)
      requires Node?
      ensures r.Node? && r.key == key && r.value == value
      ensures r.left == left && r.right == newRight
      ensures r.Height() == Max(left.Height(), newRight.Height()) + 1
      ensures Inorder(r) == Inorder(left) + [(key, value)] + Inorder(newRight)
    {
      MkNode(key, value, left, newRight)
    }
  }

  /**
   * The private `Node` constructor: the new node's height is one more than the
   * larger cached height of its children, and its balance factor is the
   * difference of those heights.
   */
  function MkNode<V>(k: Key, v: V, l: Tree<V>, r: Tree<V>): (t: Tree<V>)
    ensures t.Node? && t.key == k && t.value == v && t.left == l && t.right == r
    ensures t.Height() == Max(l.Height(), r.Height()) + 1 >= 1
    ensures t.Balance() == l.Height() - r.Height()
    ensures WellFormed(l) && WellFormed(r) ==> WellFormed(t)
    ensures Inorder(t) == Inorder(l) + [(k, v)] + Inorder(r)
    ensures Keys(t) == Keys(l) + {k} + Keys(r)
  {
    Node(k, v, l, r, Max(l.Height(), r.Height()) + 1)
  }

  /** Every cached height agrees with the heights of the node's children. */
  ghost predicate WellFormed<V>(t: Tree<V>) {
    match t
    case Empty => true
    case Node(_, _, l, r, h) => h == Max(l.Height(), r.Height()) + 1 && WellFormed(l) && WellFormed(r)
  }

  /** The number of nodes on a longest root-to-leaf path, computed from the shape alone. */
  function Depth<V>(t: Tree<V>): nat {
    match t
    case Empty => 0
    case Node(_, _, l, r, _) => Max(Depth(l), Depth(r)) + 1
  }

  /** Every node's balance factor lies in {-1, 0, 1}. */
  ghost predicate Balanced<V>(t: Tree<V>) {
    match t
    case Empty => true
    case Node(_, _, l, r, _) => -1 <= t.Balance() <= 1 && Balanced(l) && Balanced(r)
  }

  /** The AVL invariant: consistent cached heights and every node balanced. */
  ghost predicate IsAVL<V>(t: Tree<V>) {
    WellFormed(t) && Balanced(t)
  }

  /** The entries of the tree in in-order (left, node, right). */
  function Inorder<V>(t: Tree<V>): seq<(Key, V)> {
    match t
    case Empty => []
    case Node(k, v, l, r, _) => Inorder(l) + [(k, v)] + Inorder(r)
  }

  function Keys<V>(t: Tree<V>): set<Key> {
    match t
    case Empty => {}
    case Node(k, _, l, r, _) => Keys(l) + {k} + Keys(r)
  }

  /** Binary-search-tree order: left keys below the node's key, right keys above. */
  ghost predicate SearchTree<V>(t: Tree<V>) {
    match t
    case Empty => true
    case Node(k, _, l, r, _) =>
      (forall x :: x in Keys(l) ==> x < k) &&
      (forall x :: x in Keys(r) ==> k < x) &&
      SearchTree(l) && SearchTree(r)
  }

  /** Keys strictly increase along the sequence. */
  ghost predicate Ascending<V>(s: seq<(Key, V)>) {
    forall i, j :: 0 <= i < j < |s| ==> s[i].0 < s[j].0
  }

  /** The cached height of a well-formed tree is its true depth. */
  lemma {:induction false} HeightIsDepth<V>(t: Tree<V>)
    requires WellFormed(t)
    ensures t.Height() == Depth(t)
  {
    match t
    case Empty =>
    case Node(_, _, l, r, _) =>
      HeightIsDepth(l);
      HeightIsDepth(r);
  }

  /** The key set is exactly the set of keys appearing in the in-order sequence. */
  lemma {:induction false} KeysAreInorderKeys<V>(t: Tree<V>)
    ensures forall x :: x in Keys(t) <==> exists i :: 0 <= i < |Inorder(t)| && Inorder(t)[i].0 == x
  {
    match t
    case Empty =>
    case Node(k, v, l, r, _) =>
      KeysAreInorderKeys(l);
      KeysAreInorderKeys(r);
      var s := Inorder(t);
      var L, R := Inorder(l), Inorder(r);
      assert s == L + [(k, v)] + R;
      forall x
        ensures x in Keys(t) <==> exists i :: 0 <= i < |s| && s[i].0 == x
      {
        if x in Keys(l) {
          var i :| 0 <= i < |L| && L[i].0 == x;
          assert s[i] == L[i];
        } else if x == k {
          assert s[|L|] == (k, v);
        } else if x in Keys(r) {
          var j :| 0 <= j < |R| && R[j].0 == x;
          assert s[|L| + 1 + j] == R[j];
        }
        if i :| 0 <= i < |s| && s[i].0 == x {
          if i < |L| {
            assert s[i] == L[i];
          } else if i > |L| {
            assert s[i] == R[i - |L| - 1];
          }
        }
      }
      assert forall x :: x in Keys(t) <==> exists i :: 0 <= i < |Inorder(t)| && Inorder(t)[i].0 == x;
  }

  /** A sequence split around one entry ascends iff both parts ascend and the entry separates them. */
  lemma AscendingSplit<V>(a: seq<(Key, V)>, e: (Key, V), b: seq<(Key, V)>)
    ensures Ascending(a + [e] + b) <==>
              Ascending(a) && Ascending(b) &&
              (forall i :: 0 <= i < |a| ==> a[i].0 < e.0) &&
              (forall j :: 0 <= j < |b| ==> e.0 < b[j].0)
  {
    var s := a + [e] + b;
    if Ascending(s) {
      forall i, j | 0 <= i < j < |a| ensures a[i].0 < a[j].0 {
        assert s[i] == a[i] && s[j] == a[j];
      }
      forall i, j | 0 <= i < j < |b| ensures b[i].0 < b[j].0 {
        assert s[|a| + 1 + i] == b[i] && s[|a| + 1 + j] == b[j];
      }
      forall i | 0 <= i < |a| ensures a[i].0 < e.0 {
        assert s[i] == a[i] && s[|a|] == e;
      }
      forall j | 0 <= j < |b| ensures e.0 < b[j].0 {
        assert s[|a|] == e && s[|a| + 1 + j] == b[j];
      }
    }
  }

  /** The search-tree order holds exactly when the in-order keys ascend. */
  lemma {:induction false} SearchTreeIffAscending<V>(t: Tree<V>)
    ensures SearchTree(t) <==> Ascending(Inorder(t))
  {
    match t
    case Empty =>
    case Node(k, v, l, r, _) =>
      SearchTreeIffAscending(l);
      SearchTreeIffAscending(r);
      KeysAreInorderKeys(l);
      KeysAreInorderKeys(r);
      AscendingSplit(Inorder(l), (k, v), Inorder(r));
      var L, R := Inorder(l), Inorder(r);
      if SearchTree(t) {
        forall i | 0 <= i < |L| ensures L[i].0 < k {
          assert L[i].0 in Keys(l);
        }
        forall j | 0 <= j < |R| ensures k < R[j].0 {
          assert R[j].0 in Keys(r);
        }
      }
  }
}
