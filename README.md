# AVL rebalancing core of the totallylazy persistent tree map

This project models the core of `AVLTree`, the persistent, immutable,
height-balanced binary search tree behind totallylazy's ordered map, and
proves properties of that model in Dafny. The model covers:

- the two node variants. `Empty` has height 0 and balance 0. `Node` caches
  `max(left.height, right.height) + 1` as its height and reports
  `left.height - right.height` as its balance;
- the factory `constructors.create` in its three overloads. It is the only
  way to build a non-empty node, and every node it builds passes through the
  balancer;
- the balancer `methods.balance`, with `balanceLeft` / `balanceRight` and
  the four rotations `balanceLeftLeft`, `balanceLeftRight`,
  `balanceRightRight` and `balanceRightLeft`. `AVLTree.java` writes the
  rotations only with the child accessors and the `left(newLeft)` /
  `right(newRight)` setters.

The setters can build a node only through `create`. The `Node` constructor
is private (line 164), and a node knows only `constructors.factory`
(lines 142 and 165). `create` always passes the new node through `balance`
(line 73). So every setter call inside a rotation may rotate again. On a
node with balanced subtrees this still gives the textbook rotation, except
in one case. When the middle node of a double rotation leans outward, it
always gives a tree that is not balanced (see "## Findings"). The project therefore models two readings:

- the evidently intended rotations. They rebuild the nodes they touch
  without rebalancing, which is what the AVL rebalancing picture cited at
  line 82 shows. The modules `Balancer`, `Factory` and `InsertDriver` use
  this reading and prove the AVL properties about it;
- the code as written. Module `AsWritten` builds every rotation through
  setters that call `create`. It proves where the two readings agree and
  gives the inputs where they do not.

Everything is an immutable value, so the model is a datatype with functions
and lemmas:

- `tree.dfy` (module `AVLTree`): the `Tree` datatype with its cached height,
  `Height()`, `Balance()`, the raw node constructor `MkNode`, the raw
  rebuilds `WithLeft` / `WithRight`, and the views used in the proofs (`Inorder`,
  `Keys`, `SearchTree`, `Depth`, `WellFormed`, `Balanced`, `IsAVL`).
- `balancer.dfy` (module `Balancer`): `balance`, its two sides and the four
  rotations with raw rebuilds, with their preservation and AVL-restoration
  lemmas.
- `factory.dfy` (module `Factory`): the three `create` overloads and the
  lemmas about the trees they build.
- `insert_driver.dfy` (module `InsertDriver`): a driver only. It is a
  recursive search-tree insertion that rebuilds every node through `create`
  and exercises the balancer. It is not the map's own `put`.
- `as_written.dfy` (module `AsWritten`): the setters, `create`, `balance`
  and the rotations exactly as the code composes them. It also holds the
  lemmas that compare this reading with the intended one.

Modelling decisions:

- The comparator is replaced by the fixed total order `<` on integer keys.
  Values have an arbitrary type `V`.
- The bodies of the setters `left(newLeft)` and `right(newRight)` live in
  `AbstractTreeMap`, which is not part of this model. `AsWritten.SetLeft` and
  `AsWritten.SetRight` model each setter as `create` with the node's key,
  value and other child, the only way the setter can build a node.
- The cached height is a field of type `nat`. A node whose balance is 2
  therefore has a non-empty left child, so `Balance` needs no precondition.
  Only the four rotations need preconditions: they require the children they
  touch to be non-empty. In Java, calling `left()` or `right()` on an empty
  tree fails at run time.
- Case selection follows the code. For a right-heavy node, a right child
  with balance +1 gets the right-left double rotation. A right child with
  balance -1 gets the single left rotation. The model follows the code,
  which is also the standard AVL rule. The left side mirrors this.
- When the heavier child's balance is neither +1 nor -1, `balance` returns
  the node unchanged (lines 100 and 110). The model keeps this. The lemma
  `UnrepairedWhenHeavyChildEven` shows that the result can then still have
  balance 2. So the AVL theorem is stated only for the four rotation cases,
  and for `create` only when such a node cannot arise.

## Model

| member | source | states |
|---|---|---|
| `AVLTree.MkNode` | src/com/googlecode/totallylazy/collections/AVLTree.java:164-167 | The private `Node` constructor gives a node of height `max(left.height, right.height) + 1` and balance `left.height - right.height`. The node holds the left entries, then its own entry, then the right entries, and its key set is the union of the three. Built from consistent subtrees, it is consistent. |
| `AVLTree.Tree.WithLeft` | src/com/googlecode/totallylazy/collections/AVLTree.java:50 | The node with its left child replaced and nothing rebalanced. It keeps the key, the value and the right child and recomputes the height. Its in-order entries are those of the new left child, then the node's entry, then the right child's. The setter `left(newLeft)` returns exactly this when the new children's heights differ by at most one (`AsWritten.SetLeft`). |
| `AVLTree.Tree.WithRight` | src/com/googlecode/totallylazy/collections/AVLTree.java:56 | The mirror of `WithLeft`: it keeps the left child and replaces the right child, and it is what the setter `right(newRight)` returns when the new heights differ by at most one (`AsWritten.SetRight`). |
| `AVLTree.HeightIsDepth` | src/com/googlecode/totallylazy/collections/AVLTree.java:162-172 | In a tree whose every node was built by the constructor, the cached `height()` equals the true depth of the tree (the longest root-to-leaf path). The cached value is never stale. |
| `Balancer.BalanceLeftLeft` | src/com/googlecode/totallylazy/collections/AVLTree.java:113-117 | The intended single right rotation maps `(P, (L, A, C), D)` to `(L, A, (P, C, D))`, and both new nodes get recomputed heights. On every node `balanceLeft` (line 98) hands it, the code as written gives the same tree (`AsWritten.LeftLeftAgrees`). |
| `Balancer.BalanceLeftRight` | src/com/googlecode/totallylazy/collections/AVLTree.java:119-124 | The intended left-right double rotation maps `(P, (L, A, (M, B, C)), D)` to `(M, (L, A, B), (P, C, D))`. The code as written gives this unless `M` leans outward (`AsWritten.BalanceAgreesIffNotOutward`, and see "## Findings"). |
| `Balancer.BalanceRightRight` | src/com/googlecode/totallylazy/collections/AVLTree.java:126-130 | The intended single left rotation maps `(P, A, (R, B, D))` to `(R, (P, A, B), D)`. The code as written gives the same tree on every node `balanceRight` (line 108) hands it (`AsWritten.RightRightAgrees`). |
| `Balancer.BalanceRightLeft` | src/com/googlecode/totallylazy/collections/AVLTree.java:132-137 | The intended right-left double rotation maps `(P, A, (R, (M, B, C), D))` to `(M, (P, A, B), (R, C, D))`. The code as written gives this unless `M` leans outward (`AsWritten.BalanceAgreesIffNotOutward`, and see "## Findings"). |
| `Balancer.LeftLeftPreserves` | src/com/googlecode/totallylazy/collections/AVLTree.java:113-117 | The single right rotation keeps the in-order sequence of (key, value) entries and the key set. A consistent input gives a consistent output. |
| `Balancer.LeftRightPreserves` | src/com/googlecode/totallylazy/collections/AVLTree.java:119-124 | The left-right double rotation keeps the in-order entries and the key set, and it keeps cached heights consistent. |
| `Balancer.RightRightPreserves` | src/com/googlecode/totallylazy/collections/AVLTree.java:126-130 | The single left rotation keeps the in-order entries and the key set, and it keeps cached heights consistent. |
| `Balancer.RightLeftPreserves` | src/com/googlecode/totallylazy/collections/AVLTree.java:132-137 | The right-left double rotation keeps the in-order entries and the key set, and it keeps cached heights consistent. |
| `Balancer.BalanceLeft` | src/com/googlecode/totallylazy/collections/AVLTree.java:93-101 | For a node of balance 2, `balanceLeft` picks the left-right, the left-left or no rotation. Whichever it picks, the in-order entries, the key set and height consistency are kept. |
| `Balancer.BalanceRight` | src/com/googlecode/totallylazy/collections/AVLTree.java:103-111 | For a node of balance -2, `balanceRight` picks the right-left, the right-right or no rotation, and it keeps the in-order entries, the key set and height consistency. |
| `Balancer.Balance` | src/com/googlecode/totallylazy/collections/AVLTree.java:83-91 | `balance` returns the node unchanged unless its balance is ±2 and the heavier child's balance is ±1. It always keeps the in-order entries, the key set and height consistency. |
| `Balancer.BalanceChangesIffRotates` | src/com/googlecode/totallylazy/collections/AVLTree.java:83-111 | `balance` changes the node if and only if one of the four rotation cases applies. |
| `Balancer.BalanceKeepsSearchTree` | src/com/googlecode/totallylazy/collections/AVLTree.java:83-137 | A search-tree input gives a search-tree output. |
| `Balancer.BalanceRestoresAVL` | src/com/googlecode/totallylazy/collections/AVLTree.java:82-137 | Suppose the node's heights are consistent, both subtrees are balanced everywhere, and a rotation case applies. Then `balance` returns a tree that satisfies the AVL invariant at every node, and its height is one less than the node's. |
| `Balancer.LeftLeftRestores` | src/com/googlecode/totallylazy/collections/AVLTree.java:113-117 | The single right rotation case: balance 2 and left child balance 1 give an AVL result one level lower. |
| `Balancer.LeftRightRestores` | src/com/googlecode/totallylazy/collections/AVLTree.java:119-124 | The left-right case: balance 2 and left child balance -1 give an AVL result one level lower. |
| `Balancer.RightRightRestores` | src/com/googlecode/totallylazy/collections/AVLTree.java:126-130 | The single left rotation case: balance -2 and right child balance -1 give an AVL result one level lower. |
| `Balancer.RightLeftRestores` | src/com/googlecode/totallylazy/collections/AVLTree.java:132-137 | The right-left case: balance -2 and right child balance 1 give an AVL result one level lower. |
| `Balancer.UnrepairedWhenHeavyChildEven` | src/com/googlecode/totallylazy/collections/AVLTree.java:93-101 | When the heavier child's balance is 0, the node is returned unchanged. Here the subtrees are AVL and the node is a search tree, yet the result keeps balance 2 and is not balanced. |
| `Factory.CreateEmpty` | src/com/googlecode/totallylazy/collections/AVLTree.java:145-153 | `create(comparator)` gives `Empty`, which has height 0, balance 0 and no entries, and which is an AVL search tree. |
| `Factory.Create` | src/com/googlecode/totallylazy/collections/AVLTree.java:71-74 | `create(…, key, value, left, right)` gives the entries of `left`, then `(key, value)`, then those of `right`, with the key set to match, and it keeps height consistency. When the two heights differ by at most one, the result is the plain new node: no rotation happens. |
| `Factory.CreateLeaf` | src/com/googlecode/totallylazy/collections/AVLTree.java:66-69 | `create(…, key, value)` is the node with two `Empty` children. It has height 1 and balance 0, is not rotated, holds exactly one entry and is AVL. |
| `Factory.CreateKeepsSearchTree` | src/com/googlecode/totallylazy/collections/AVLTree.java:71-74 | Two search trees separated by the key give a search tree. |
| `Factory.CreateKeepsAVL` | src/com/googlecode/totallylazy/collections/AVLTree.java:71-74 | Take two AVL subtrees whose heights differ by at most 2, where a difference of 2 comes with a leaning heavier child. Then `create` returns an AVL tree. Its height is the taller height + 1 without a rotation, and the taller height with one. |
| `Factory.CreateRotatesChain` | src/com/googlecode/totallylazy/collections/AVLTree.java:126-130 | `create(1, Empty, (2, Empty, (3, Empty, Empty)))` goes through the single left rotation to the root 2 with children 1 and 3. The result has height 2 and balance 0. |
| `InsertDriver.Insert` | src/com/googlecode/totallylazy/collections/AVLTree.java:71-74 | This is a driver and not the map's `put`. It is a search-tree insertion that rebuilds the path through `create`. The key set gains exactly the inserted key, the inserted entry is in the result, and height consistency is kept. |
| `InsertDriver.InsertKeepsOtherEntries` | src/com/googlecode/totallylazy/collections/AVLTree.java:71-74 | This is about the driver: an entry whose key is not the inserted one is in the tree after insertion if and only if it was there before. |
| `InsertDriver.InsertKeepsSearchTree` | src/com/googlecode/totallylazy/collections/AVLTree.java:71-74 | This is about the driver: inserting through `create` keeps the search-tree order. |
| `InsertDriver.InsertKeepsAVL` | src/com/googlecode/totallylazy/collections/AVLTree.java:71-74 | This is about the driver: rebuilding through `create` after each insertion keeps the AVL invariant and grows the height by at most one. When the height grows past 1, the new root leans, so the balancer's heavy-child-even case never arises on this path. |
| `InsertDriver.InsertAscendingThree` | src/com/googlecode/totallylazy/collections/AVLTree.java:84-85 | This is about the driver: inserting 1, 2, 3 into the empty tree triggers the right-heavy branch and the single left rotation. The result is the root 2 with children 1 and 3, of height 2 and balance 0. |
| `AsWritten.SetLeft` | src/com/googlecode/totallylazy/collections/AVLTree.java:50 | As written, the setter `left(newLeft)` is `create` with the node's key, value and right child. Whatever it builds holds the new left child's entries, then the node's entry, then the right child's, with consistent heights. When the new heights differ by at most one it is the plain rebuild `WithLeft`. |
| `AsWritten.SetRight` | src/com/googlecode/totallylazy/collections/AVLTree.java:56 | The mirror of `SetLeft` for `right(newRight)`. When the new heights differ by at most one it is the plain rebuild `WithRight`. |
| `AsWritten.Create` | src/com/googlecode/totallylazy/collections/AVLTree.java:71-74 | As written, `create(…, key, value, left, right)` passes the new node through `balance`. It keeps the in-order entries and height consistency, and it returns the plain new node when the heights differ by at most one. |
| `AsWritten.Balance` | src/com/googlecode/totallylazy/collections/AVLTree.java:83-91 | As written, `balance` keeps the in-order entries and height consistency, and it returns the node as is unless its balance is 2 or -2. |
| `AsWritten.BalanceLeft` | src/com/googlecode/totallylazy/collections/AVLTree.java:93-101 | As written, `balanceLeft` keeps the in-order entries and height consistency, and it returns the node as is unless the left child's balance is 1 or -1. |
| `AsWritten.BalanceRight` | src/com/googlecode/totallylazy/collections/AVLTree.java:103-111 | As written, `balanceRight` keeps the in-order entries and height consistency, and it returns the node as is unless the right child's balance is 1 or -1. |
| `AsWritten.BalanceLeftLeft` | src/com/googlecode/totallylazy/collections/AVLTree.java:113-117 | `balanceLeftLeft` through the setters keeps the in-order entries and height consistency. |
| `AsWritten.BalanceLeftRight` | src/com/googlecode/totallylazy/collections/AVLTree.java:119-124 | `balanceLeftRight` through the setters, followed by `balanceLeftLeft`, keeps the in-order entries and height consistency. |
| `AsWritten.BalanceRightRight` | src/com/googlecode/totallylazy/collections/AVLTree.java:126-130 | `balanceRightRight` through the setters keeps the in-order entries and height consistency. |
| `AsWritten.BalanceRightLeft` | src/com/googlecode/totallylazy/collections/AVLTree.java:132-137 | `balanceRightLeft` through the setters, followed by `balanceRightRight`, keeps the in-order entries and height consistency. |
| `AsWritten.LeftLeftAgrees` | src/com/googlecode/totallylazy/collections/AVLTree.java:113-117 | For a node of balance 2 whose left child has balance 1, neither setter call sees an imbalance. So the code as written returns exactly the intended single right rotation. |
| `AsWritten.RightRightAgrees` | src/com/googlecode/totallylazy/collections/AVLTree.java:126-130 | For a node of balance -2 whose right child has balance -1, the code as written returns exactly the intended single left rotation. |
| `AsWritten.LeftRightAgreesWhenInward` | src/com/googlecode/totallylazy/collections/AVLTree.java:119-124 | In the left-right case, when the middle node has balance 1, the code as written returns exactly the intended double rotation `(M, (L, A, B), (P, C, D))`. |
| `AsWritten.RightLeftAgreesWhenInward` | src/com/googlecode/totallylazy/collections/AVLTree.java:132-137 | In the right-left case, when the middle node has balance -1, the code as written returns exactly the intended double rotation `(M, (P, A, B), (R, C, D))`. |
| `AsWritten.LeftRightAgreesWhenEven` | src/com/googlecode/totallylazy/collections/AVLTree.java:119-124 | In the left-right case, when the middle node has balance 0 (as after inserting 3, 1, 2), the code as written still returns exactly the intended double rotation, by rotating back in the last setter. |
| `AsWritten.RightLeftAgreesWhenEven` | src/com/googlecode/totallylazy/collections/AVLTree.java:132-137 | The mirror: with the middle node at balance 0 the code as written returns exactly the intended right-left double rotation. |
| `AsWritten.LeftRightFailsWhenOutward` | src/com/googlecode/totallylazy/collections/AVLTree.java:119-124 | In the left-right case, whenever the middle node has balance -1, the code as written returns `(L, A, (M, B, (P, C, D)))`. It is as tall as the unbalanced node and has balance -2. |
| `AsWritten.RightLeftFailsWhenOutward` | src/com/googlecode/totallylazy/collections/AVLTree.java:132-137 | The mirror: whenever the middle node has balance 1, the code as written returns `(R, (M, (P, A, B), C), D)`, as tall as the node and of balance 2. |
| `AsWritten.BalanceAgreesIffNotOutward` | src/com/googlecode/totallylazy/collections/AVLTree.java:83-137 | Take a node where a rotation case applies, with consistent heights and balanced subtrees. `balance` as written returns the intended rotation if and only if the middle node of a double rotation does not lean outward. It then returns an AVL tree one level lower. Otherwise it returns a tree that is not balanced and is no lower than the node. |
| `AsWritten.CreateKeepsSearchTree` | src/com/googlecode/totallylazy/collections/AVLTree.java:71-74 | As written, `create` from two search trees separated by the key gives a search tree whenever it builds one. |
| `AsWritten.LeftRightOutwardCounterexample` | src/com/googlecode/totallylazy/collections/AVLTree.java:119-124 | The left subtree `(2, 1, (3, -, 4))` is AVL and the node is a search tree. As written, `create(5, (2, 1, (3, -, 4)), 6)` returns `(2, 1, (3, -, (5, 4, 6)))`: height 4, balance -2, not balanced. The intended `create` returns the AVL tree `(3, (2, 1, -), (5, 4, 6))`. |
| `AsWritten.RightLeftOutwardCounterexample` | src/com/googlecode/totallylazy/collections/AVLTree.java:132-137 | The mirror: as written, `create(2, 1, (5, (4, 3, -), 6))` returns `(5, (4, (2, 1, 3), -), 6)`: height 4, balance 2, not balanced. The intended `create` returns `(4, (2, 1, 3), (5, -, 6))`. |

## Left out

- `put`, `remove`, `filterKeys`, `filterValues`, `removeFirst`, `removeLast`, `cons` and `tail` are only declared in `AVLTree.java`. Their bodies are in `AbstractTreeMap`, `AbstractEmptyTreeMap` and `TreeMap.methods`, which are not part of this model. `InsertDriver.Insert` is a stand-in that exercises `create`, not a model of `put`.
- `Node.mapValues` delegates to `TreeMap.methods.mapValues`, which is not part of this model. `Empty.mapValues` is only a generic cast.
- The bodies of the `left(newLeft)` / `right(newRight)` setters are in `AbstractTreeMap`, which is not part of this model. `AsWritten.SetLeft` / `AsWritten.SetRight` model them as calls of `create`, which is all they can reach. If they built nodes some other way, the Findings below would not apply.
- Balancer.BalanceLeftRight: states the intended double rotation built with raw rebuilds, not the code as written, which differs when the middle node leans outward (see "## Findings").
- Balancer.BalanceRightLeft: states the intended double rotation built with raw rebuilds, not the code as written (see "## Findings").
- Balancer.LeftRightRestores: proves the AVL repair for the intended rotation. The code as written fails it (`AsWritten.LeftRightOutwardCounterexample`).
- Balancer.RightLeftRestores: proves the AVL repair for the intended rotation. The code as written fails it (`AsWritten.RightLeftOutwardCounterexample`).
- Balancer.BalanceRestoresAVL: holds for the intended rotations. The code as written fails it exactly in the double-rotation cases whose middle node leans outward (`AsWritten.BalanceAgreesIffNotOutward`).
- Factory.CreateKeepsAVL: holds for the intended `create`. The code as written breaks it on the counterexample inputs under "## Findings".
- InsertDriver.InsertKeepsAVL: holds for insertion through the intended `create`. Through the code as written, inserting 5, 2, 6, 1, 3, 4 reaches the left-right counterexample.
- AsWritten: the mutual recursion of the setters, `create`, `balance` and the rotations is bounded by a `fuel` argument. One unit is spent per setter call inside a rotation. The outcome `Stuck` stands for running out of fuel, or for reading a child of an empty tree (where the Java code throws). The comparison lemmas hold for every fuel of at least 1 or 2. That the recursion as written always terminates is not proved.
- AsWritten.BalanceLeftRight: its contract states only that, when a tree is built, the entries and height consistency are kept. Its exact shape is given by the comparison lemmas, which together cover every node `balanceLeft` hands it from a tree with balanced subtrees.
- AsWritten.BalanceRightLeft: as for `AsWritten.BalanceLeftRight`, only the entries and height consistency are stated in general.
- The comparator, `Comparators.ascending` and the `avlTree(key, value)` convenience are replaced by the fixed order `<` on integer keys, so `avlTree(key, value)` is `Factory.CreateLeaf`. `Unchecked.cast` has no counterpart, because the model is typed directly.
- Object identity is not modelled. Where the Java returns the same node object, the model returns an equal value.
- Java's 32-bit `int` heights are unbounded `nat`. No tree can come near the overflow point.
- The exception thrown by `left()` or `right()` on an empty tree is not modelled. The rotations instead require the children they touch to be non-empty, and the balancer calls them only where those children exist.
- `OrParser` (the backtracking alternation parser combinator) and the concurrent call dispatcher test are not part of this core.

## Findings

| source | as written | input that shows it | evidently intended | confidence | as-written member | corrected member |
|---|---|---|---|---|---|---|
| src/com/googlecode/totallylazy/collections/AVLTree.java:119-124 | `balanceLeftRight` builds `three`, `four` and `parent.left(four)` with setters that go through `create`. So `parent.left(four)` is already rotated before `balanceLeftLeft` rotates it a second time. | `create(5, (2, 1, (3, -, 4)), 6)`: both subtrees are AVL. The result is `(2, 1, (3, -, (5, 4, 6)))`, of height 4 and balance -2. | the double rotation `(3, (2, 1, -), (5, 4, 6))`, which is AVL and of height 3 | medium: the setters' bodies are not part of this model; not executed | `AsWritten.LeftRightOutwardCounterexample` | `Balancer.LeftRightRestores` |
| src/com/googlecode/totallylazy/collections/AVLTree.java:132-137 | The mirror in `balanceRightLeft`: `parent.right(four)` is already rotated before `balanceRightRight` rotates it again. | `create(2, 1, (5, (4, 3, -), 6))`: the result is `(5, (4, (2, 1, 3), -), 6)`, of height 4 and balance 2. | the double rotation `(4, (2, 1, 3), (5, -, 6))`, which is AVL and of height 3 | medium: the setters' bodies are not part of this model; not executed | `AsWritten.RightLeftOutwardCounterexample` | `Balancer.RightLeftRestores` |
