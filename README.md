# AVL product catalogue

This is a Dafny model of a small in-memory product catalogue. The catalogue maps a product's
unique id to its name, and it is backed by an AVL tree: a binary search tree ordered by id that
keeps itself height-balanced. The parts modelled are:

- the AVL tree of `AVL_Tree.h`: its nodes with cached heights, the height fix-up, the balance
  factor, the single and double rotations, rebalancing, insertion that rejects duplicate ids,
  and removal by id that replaces a removed node with its in-order successor;
- the catalogue class of `ProductsImpl.h`, whose add, delete, get-name and find-by-name
  operations pass through to the tree.

Modules:

- `Products` (`product.dfy`): the `Product` record, an id and a name.
- `Avl` (`avl_tree.dfy`):
  - the `Tree` datatype;
  - the node routines, as total functions;
  - the abstractions the contracts use: the id set `Keys`, the id-to-name map `Content`, the
    in-order sequence `Inorder`, the real height `ActualHeight`, and the `Bst`, `Balanced`,
    `HeightsCorrect` and `IsAvl` invariants;
  - the lemmas that prove the AVL theory;
  - the `AvlTree` class, which holds the root in `head`.
- `Catalog` (`products_impl.dfy`): the `ProductsImpl` class, specified against the id-to-name
  contents of its tree.
- `AsWritten` (`remove_as_written.dfy`): `AVL_Tree::Remove` exactly as the source writes it,
  with concrete inputs that show how it differs from its promise (see Findings).
- `Scenario` (`main_scenario.dfy`): the calls of `main.cpp`, computed step by step on the node
  routines.

Each node routine of the source takes a subtree and returns the root of the rebuilt subtree. It
relinks nodes in place, but each node has exactly one parent. So the model computes the new tree
value instead, branch for branch as the C++ does. The `AvlTree` and `ProductsImpl` classes keep
the state that the source updates in place.

The source leaves two lookups undefined: `AVL_Tree::SearchById` and `AVL_Tree::SearchByName` are
called from the catalogue but are not in `AVL_Tree.h`. The model follows the catalogue's own
comments and the asserts in `main.cpp`:

- lookup by id descends the search tree and returns `""` when the id is absent;
- lookup by name visits every node in root, left, right order and collects the matching ids.

`AVL_Tree::Remove` throws away the new root that `RemoveNode` returns, and it always returns
`true`. The catalogue's comment promises `true` only when the id was present, and `main.cpp`
asserts `false` for absent ids. `Avl.AvlTree.Remove` is therefore the corrected removal: it stores
the returned root in `head` and reports whether the id was present. The code as written is
modelled separately in `AsWritten` (see Findings).

## Model

| member | source | states |
|---|---|---|
| `Avl.BalanceFactor` | AVL_Tree.h:79-82 | when the children's cached heights are correct, the result is the left real height minus the right real height, with an absent child counting 0 |
| `Avl.CreateNode` | AVL_Tree.h:96-99 | a new node is an AVL tree of height 1 that holds exactly the given product |
| `Avl.FixHeight` | AVL_Tree.h:103-110 | only the node's height changes; it becomes 1 + max of the children's cached heights; if the children's heights are correct, the node's height is correct too |
| `Avl.RotateRight` | AVL_Tree.h:113-121 | the in-order product sequence is unchanged; the two relinked nodes get correct heights; search-tree order and the id-to-name contents are kept |
| `Avl.RotateLeft` | AVL_Tree.h:124-132 | the mirror image of `RotateRight`: same in-order sequence, correct heights, order and contents kept |
| `Avl.RotationKeepsOrder` | AVL_Tree.h:113-132 | the two shapes a rotation converts into each other, x(y(a, b), c) and y(a, x(b, c)), are search trees under exactly the same conditions |
| `Avl.Balance` | AVL_Tree.h:135-155 | the result is non-empty and has the same in-order sequence; search-tree order and contents are kept |
| `Avl.BalanceCorrect` | AVL_Tree.h:135-155 | for AVL children whose heights differ by at most 2, the result has correct heights and is balanced at every node, including after the double rotations; its height lies between the higher child's height and one more; with a difference of at most 1, only the height is refreshed |
| `Avl.BalanceKeepsAvl` | AVL_Tree.h:135-155 | rebalancing a node that is already AVL returns it unchanged |
| `Avl.InsertNode` | AVL_Tree.h:158-180 | the flag is only ever cleared; in a search tree, it stays set exactly when it came in set and the id was absent |
| `Avl.InsertNodeCorrect` | AVL_Tree.h:158-180 | insertion into an AVL tree gives an AVL tree; a present id leaves the same tree and clears the flag; an absent id keeps the flag, adds exactly that id with that name, and grows the height by at most one |
| `Avl.FindMinNode` | AVL_Tree.h:182-185 | the result is the left-most node, holding the first product in order; in a search tree its id is the smallest stored id |
| `Avl.RemoveMinNode` | AVL_Tree.h:187-193 | the in-order sequence of the input is the minimum followed by the in-order sequence of the result |
| `Avl.RemoveMinNodeCorrect` | AVL_Tree.h:187-193 | in an AVL tree, this removes exactly the minimum product and keeps everything else; the result is AVL and at most one level lower |
| `Avl.RemoveNode` | AVL_Tree.h:195-218 | every product in the result was in the input |
| `Avl.RemoveNodeCorrect` | AVL_Tree.h:195-218 | in an AVL tree, the result is AVL with contents equal to the old contents minus the id; an absent id leaves the very same tree; the height drops by at most one |
| `Avl.ReplaceBySuccessor` | AVL_Tree.h:206-214 | replacing a node that has a right child with its in-order successor gives an AVL tree without the node's id and is at most one level lower |
| `Avl.InorderAscending` | AVL_Tree.h:173-176 | the in-order traversal of a search tree lists ids in strictly ascending order |
| `Avl.FindNode` | ProductsImpl.h:37-42 | in a search tree, the descent reaches a node exactly when the id is stored, and that node holds the id and its stored name |
| `Avl.FindNodeWithin` | ProductsImpl.h:37-42 | every id under the node the descent reaches is an id of the tree searched |
| `Avl.SearchById` | ProductsImpl.h:37-42 | in a search tree, the result is the name stored for the id, or `""` when there is none |
| `Avl.InsertThenSearch` | AVL_Tree.h:45-51 | a lookup right after an insertion finds the new name, or the old name when the insertion was refused |
| `Avl.RemoveThenSearch` | AVL_Tree.h:195-218 | a lookup right after a removal of the same id finds nothing |
| `Avl.SearchByName` | ProductsImpl.h:45-51 | the result holds only stored ids; in a search tree, an id is in it exactly when its stored name equals the query, and no id occurs twice |
| `Avl.AvlTree.constructor` | AVL_Tree.h:30-33 | a new tree is empty and valid |
| `Avl.AvlTree.Insert` | AVL_Tree.h:45-51 | the head becomes the root `InsertNode` returns; the result is true exactly when the id was absent; the contents gain exactly that product, or are unchanged and the head is the same; the tree stays AVL |
| `Avl.AvlTree.Remove` | AVL_Tree.h:54-58 | corrected form: the head becomes the root `RemoveNode` returns; the result is true exactly when the id was stored; the contents lose exactly that id; the tree stays AVL |
| `Catalog.ProductsImpl.constructor` | ProductsImpl.h:18 | a new catalogue is empty |
| `Catalog.ProductsImpl.AddProduct` | ProductsImpl.h:20-26 | true exactly when no stored product had the id; then the product is added, otherwise nothing changes; after a true result, `GetName` of the id gives the new name |
| `Catalog.ProductsImpl.DeleteProduct` | ProductsImpl.h:28-34 | only the id is consulted; true exactly when the id was stored; the contents lose exactly that id, and `GetName` of it gives `""` afterwards |
| `Catalog.ProductsImpl.GetName` | ProductsImpl.h:37-42 | the stored name of the id, or `""` when there is none |
| `Catalog.ProductsImpl.FindByName` | ProductsImpl.h:45-51 | exactly the stored ids whose name equals the query, each once; empty when none matches |
| `AsWritten.RemoveAsWritten` | AVL_Tree.h:54-58 | the source's removal: it always reports true; an empty head stays empty; removing the root's own id leaves the head dangling; when another id is removed from an AVL tree, the head still points at the old root's node, which now heads a subtree of the tree `RemoveNode` returns, so it reaches at most the ids of that tree |
| `AsWritten.ReportsAbsentIdAsRemoved` | AVL_Tree.h:57 | removing id 9 from an empty tree reports true, although the id is not stored |
| `AsWritten.LosesNodesAfterRotation` | AVL_Tree.h:56 | in the AVL tree 2(1, 3(-, 4)), removing id 1 leaves the head on a one-node subtree that holds only id 2, while the tree `RemoveNode` returns holds 2, 3 and 4 |
| `AsWritten.LeavesHeadDanglingOnRootRemoval` | AVL_Tree.h:206-214 | removing the root's id frees the node the head still points at, while `RemoveNode` returns the correct tree 3(1, 4) |
| `Scenario.Insert0` | main.cpp:12 | adding id 0 to the empty tree reports true and gives the single node 0 |
| `Scenario.Insert1` | main.cpp:13 | adding id 1 to the single node 0 reports true and gives 0(-, 1) |
| `Scenario.Insert2` | main.cpp:14 | adding id 2 to 0(-, 1) reports true and rotates 1 up to the root |
| `Scenario.Insert3` | main.cpp:15 | adding id 3 to 1(0, 2) reports true and gives 1(0, 2(-, 3)) |
| `Scenario.Insert4` | main.cpp:16 | adding id 4 to 1(0, 2(-, 3)) reports true and rotates 3 above 2, giving 1(0, 3(2, 4)) |
| `Scenario.Insert5` | main.cpp:17 | adding id 5 to 1(0, 3(2, 4)) reports true and rotates 3 up to the root |
| `Scenario.Insert6` | main.cpp:18 | adding id 6 to 3(1(0, 2), 4(-, 5)) reports true and rotates 5 above 4, giving 3(1(0, 2), 5(4, 6)) |
| `Scenario.Insert7` | main.cpp:19 | adding id 7 reports true and gives 3(1(0, 2), 5(4, 6(-, 7))) |
| `Scenario.DuplicateRejected` | main.cpp:20 | adding id 4 a second time reports false and leaves the tree unchanged |
| `Scenario.NameLookups` | main.cpp:22-25 | ids 8888 and -322 give `""`; id 4 gives "hello"; id 5 gives "tea" |
| `Scenario.ByNameLookups` | main.cpp:27-36 | "hello" gives the ids [0, 2, 4, 6] in this order; "rock" gives [] |
| `Scenario.EmptyDeletion` | main.cpp:10 | id 9 is not found in the empty tree, and removing it leaves the tree empty |
| `Scenario.Deletions` | main.cpp:38-39 | id 0 is found and its removal gives 3(1(-, 2), 5(4, 6(-, 7))); id 32 is not found afterwards |

## Left out

- Ids are integers everywhere. The source stores each id as a decimal string and parses it with
  `stoi` for ordering (AVL_Tree.h:173, 198), but compares the strings for duplicates
  (AVL_Tree.h:166). So "4" and "04" would both be stored. The model assumes one string per
  integer, and it does not model `stoi` or its exceptions.
- `print_sim` (AVL_Tree.h:60-66) is left out: it only writes to the console.
- `DelTree`, the destructors and `delete node` (AVL_Tree.h:35-39, 70-76, 208) are left out: they
  only release memory.
- The allocation-failure branch of `CreateNode` (AVL_Tree.h:87-95) is left out: it prints and ends
  the process.
- The cached height is an unbounded `nat`, not a `u_char` (AVL_Tree.h:15, 105-106). An AVL tree
  of height 255 would need more nodes than memory can hold.
- The O(log n) cost claims in the comments (AVL_Tree.h:21-23, ProductsImpl.h:7-11) are not
  modelled: they are about performance, not behaviour.
- In-place relinking is modelled on values. Aliasing between nodes is not modelled, because each
  node has exactly one owner. `AsWritten.RemoveAsWritten` describes the node the stale head
  points to as the subtree stored under the old root's id in the new tree.
- `main.cpp` is not modelled as a program. Its calls appear as the `Scenario` lemmas; its console
  output is left out.

## Findings

| source | as written | input that shows it | evidently intended | confidence | as-written member | corrected member |
|---|---|---|---|---|---|---|
| AVL_Tree.h:57 | `Remove` returns true whatever happened | removing id 9 from the empty catalogue (main.cpp:10) or id 32 after the scenario (main.cpp:39) | true only when a product with that id was stored (ProductsImpl.h:29-30) | not executed | `AsWritten.ReportsAbsentIdAsRemoved` | `Avl.AvlTree.Remove` |
| AVL_Tree.h:56 | the root returned by `RemoveNode` is discarded; `head` keeps pointing at the old root node | removing id 1 from the AVL tree 2(1, 3(-, 4)): a left rotation lifts 3, and `head` then reaches only id 2; removing id 2 frees the node `head` points at | `head = RemoveNode(head, id)` | not executed | `AsWritten.LosesNodesAfterRotation` | `Avl.AvlTree.Remove` |
