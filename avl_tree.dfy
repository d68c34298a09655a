/** The AVL tree of AVL_Tree.h.

    Each node routine of the source takes a subtree and returns the root of
    the rebuilt subtree; nodes are owned by exactly one parent, so relinking
    them in place is modelled here by building the new tree value. The
    routines are total functions that mirror the source branch for branch;
    the AVL theory about them (ordering, balance, cached heights, contents)
    is stated and proved in the lemmas that follow each group. */
module Avl {
  import opened Products

  /** A subtree: `Leaf` is the null pointer; a `Node` owns its product, its
      cached height and its two children. */
  datatype Tree = Leaf | Node(key: Product, height: nat, left: Tree, right: Tree)

  function Max(a: nat, b: nat): (m: nat) { if a > b then a else b }

  // ---------------------------------------------------------------------
  // Abstractions and invariants

  /** The cached height of a subtree, an absent child counting 0. */
  function Height(t: Tree): (h: nat) { if t.Leaf? then 0 else t.height }

  /** The height the subtree really has. */
  ghost function ActualHeight(t: Tree): nat {
    match t
    case Leaf => 0
    case Node(_, _, l, r) => 1 + Max(ActualHeight(l), ActualHeight(r))
  }

  /** Every cached height equals the real height of its subtree. */
  ghost predicate HeightsCorrect(t: Tree) {
    match t
    case Leaf => true
    case Node(_, h, l, r) => HeightsCorrect(l) && HeightsCorrect(r) && h == ActualHeight(t)
  }

  /** AVL balance: at every node the heights of the two subtrees differ by at most one. */
  ghost predicate Balanced(t: Tree) {
    match t
    case Leaf => true
    case Node(_, _, l, r) =>
      Balanced(l) && Balanced(r) && -1 <= ActualHeight(l) - ActualHeight(r) <= 1
  }

  /** The ids stored in a subtree. */
  ghost function Keys(t: Tree): set<int> {
    match t
    case Leaf => {}
    case Node(p, _, l, r) => Keys(l) + Keys(r) + {p.id}
  }

  /** The id -> name contents of a subtree. */
  ghost function Content(t: Tree): (m: map<int, string>)
    ensures m.Keys == Keys(t)
  {
    match t
    case Leaf => map[]
    case Node(p, _, l, r) => (Content(l) + Content(r))[p.id := p.name]
  }

  /** Search-tree order: every id in a left subtree is smaller, every id in a
      right subtree larger, than the id of the node above it. */
  ghost predicate Bst(t: Tree) {
    match t
    case Leaf => true
    case Node(p, _, l, r) =>
      && Bst(l) && Bst(r)
      && (forall k :: k in Keys(l) ==> k < p.id)
      && (forall k :: k in Keys(r) ==> p.id < k)
  }

  /** The invariant the tree keeps between public operations. */
  ghost predicate IsAvl(t: Tree) {
    Bst(t) && Balanced(t) && HeightsCorrect(t)
  }

  /** The in-order sequence of products. */
  ghost function Inorder(t: Tree): seq<Product> {
    match t
    case Leaf => []
    case Node(p, _, l, r) => Inorder(l) + [p] + Inorder(r)
  }

  /** Every product listed in order belongs to the subtree's ids. */
  lemma {:induction false} InorderKeys(t: Tree)
    ensures forall p :: p in Inorder(t) ==> p.id in Keys(t)
  {
    match t
    case Leaf =>
    case Node(_, _, l, r) =>
      InorderKeys(l);
      InorderKeys(r);
  }

  /** In-order traversal of a search tree lists the ids in strictly ascending order. */
  lemma {:induction false} InorderAscending(t: Tree)
    requires Bst(t)
    ensures forall i, j :: 0 <= i < j < |Inorder(t)| ==> Inorder(t)[i].id < Inorder(t)[j].id
  {
    match t
    case Leaf =>
    case Node(p, _, l, r) =>
      InorderAscending(l);
      InorderAscending(r);
      InorderKeys(l);
      InorderKeys(r);
      var sl, sr := Inorder(l), Inorder(r);
      assert Inorder(t) == sl + [p] + sr;
      forall i, j | 0 <= i < j < |Inorder(t)|
        ensures Inorder(t)[i].id < Inorder(t)[j].id
      {
        var s := Inorder(t);
        if j < |sl| {
          assert s[i] == sl[i] && s[j] == sl[j];
        } else if i < |sl| {
          assert s[i] == sl[i] && s[i] in sl;
          if j > |sl| { assert s[j] == sr[j - |sl| - 1] && s[j] in sr; }
        } else if i == |sl| {
          assert s[i] == p && s[j] == sr[j - |sl| - 1] && s[j] in sr;
        } else {
          assert s[i] == sr[i - |sl| - 1] && s[j] == sr[j - |sl| - 1];
        }
      }
  }

  // ---------------------------------------------------------------------
  // Heights and rotations (AVL_Tree.h:79-132)

  /** Difference of the cached heights of the two children. */
  function BalanceFactor(node: Tree): (bf: int)
    requires node.Node?
    ensures HeightsCorrect(node.left) && HeightsCorrect(node.right) ==>
              bf == ActualHeight(node.left) - ActualHeight(node.right)
  {
    Height(node.left) - Height(node.right)
  }

  /** A fresh node: a leaf holding the product, with height 1. */
  function CreateNode(product: Product): (n: Tree)
    ensures IsAvl(n) && ActualHeight(n) == 1
    ensures Content(n) == map[product.id := product.name] && Inorder(n) == [product]
  {
    Node(product, 1, Leaf, Leaf)
  }

  /** Recomputes the cached height of one node from its children's. */
  function FixHeight(node: Tree): (r: Tree)
    requires node.Node?
    ensures r.Node? && r.key == node.key && r.left == node.left && r.right == node.right
    ensures r.height == 1 + Max(Height(node.left), Height(node.right))
    ensures HeightsCorrect(node.left) && HeightsCorrect(node.right) ==> HeightsCorrect(r)
  {
    node.(height := 1 + Max(Height(node.left), Height(node.right)))
  }

  /** Lifts the left child above the node. */
  function RotateRight(node: Tree): (q: Tree)
    requires node.Node? && node.left.Node?
    ensures q.Node? && Inorder(q) == Inorder(node)
    ensures (HeightsCorrect(node.left.left) && HeightsCorrect(node.left.right)
             && HeightsCorrect(node.right)) ==> HeightsCorrect(q)
    ensures Bst(node) ==> Bst(q) && Content(q) == Content(node)
  {
    var q := node.left;
    var n := FixHeight(node.(left := q.right));
    var r := FixHeight(q.(right := n));
    RotationKeepsOrder(q.key, r.height, q.left, node.key, n.height, q.right, node.right, q.height, node.height);
    RotationKeepsContent(q.key, r.height, q.left, node.key, n.height, q.right, node.right, q.height, node.height);
    r
  }

  /** Lifts the right child above the node. */
  function RotateLeft(node: Tree): (q: Tree)
    requires node.Node? && node.right.Node?
    ensures q.Node? && Inorder(q) == Inorder(node)
    ensures (HeightsCorrect(node.right.left) && HeightsCorrect(node.right.right)
             && HeightsCorrect(node.left)) ==> HeightsCorrect(q)
    ensures Bst(node) ==> Bst(q) && Content(q) == Content(node)
  {
    var q := node.right;
    var n := FixHeight(node.(right := q.left));
    var r := FixHeight(q.(left := n));
    RotationKeepsOrder(node.key, node.height, node.left, q.key, q.height, q.left, q.right, n.height, r.height);
    RotationKeepsContent(node.key, node.height, node.left, q.key, q.height, q.left, q.right, n.height, r.height);
    r
  }

  /** The two shapes a rotation converts into each other, x(y(a, b), c) and
      y(a, x(b, c)), are search trees together, whatever their heights. */
  lemma RotationKeepsOrder(y: Product, hy: nat, a: Tree, x: Product, hx: nat, b: Tree, c: Tree,
                           hy': nat, hx': nat)
    ensures Bst(Node(x, hx', Node(y, hy', a, b), c)) <==> Bst(Node(y, hy, a, Node(x, hx, b, c)))
  {
    var ya, xc := Node(y, hy', a, b), Node(x, hx, b, c);
    if Bst(Node(x, hx', ya, c)) {
      assert Bst(ya);
      assert forall k :: k in Keys(b) ==> k in Keys(ya);
      assert Bst(xc);
      assert y.id in Keys(ya);
      assert forall k :: k in Keys(xc) ==> k in Keys(b) || k in Keys(c) || k == x.id;
    }
    if Bst(Node(y, hy, a, xc)) {
      assert Bst(xc);
      assert forall k :: k in Keys(b) ==> k in Keys(xc);
      assert forall k :: k in Keys(c) ==> k in Keys(xc);
      assert Bst(ya);
      assert x.id in Keys(xc);
      assert forall k :: k in Keys(ya) ==> k in Keys(a) || k in Keys(b) || k == y.id;
    }
  }

  /** In a search tree the two shapes of a rotation store the same contents. */
  lemma RotationKeepsContent(y: Product, hy: nat, a: Tree, x: Product, hx: nat, b: Tree, c: Tree,
                             hy': nat, hx': nat)
    ensures Bst(Node(x, hx', Node(y, hy', a, b), c)) ==>
              Content(Node(x, hx', Node(y, hy', a, b), c)) == Content(Node(y, hy, a, Node(x, hx, b, c)))
  {
    if Bst(Node(x, hx', Node(y, hy', a, b), c)) {
      assert y.id in Keys(Node(y, hy', a, b));
      MapRotation(Content(a), Content(b), Content(c), x.id, x.name, y.id, y.name);
    }
  }

  /** Pointwise reading of the contents before and after a rotation. */
  lemma MapRotation(ma: map<int, string>, mb: map<int, string>, mc: map<int, string>,
                    x: int, vx: string, y: int, vy: string)
    requires x != y && y !in mc
    ensures ((ma + mb)[y := vy] + mc)[x := vx] == (ma + (mb + mc)[x := vx])[y := vy]
  {
    var lhs, rhs := ((ma + mb)[y := vy] + mc)[x := vx], (ma + (mb + mc)[x := vx])[y := vy];
    assert lhs.Keys == rhs.Keys;
    forall k | k in lhs ensures lhs[k] == rhs[k] {
    }
  }

  // ---------------------------------------------------------------------
  // Rebalancing (AVL_Tree.h:135-155)

  /** Recomputes the node's height and, when one side is two higher than the
      other, restores balance with a single or a double rotation. A balance
      factor of -2 (or 2) implies a non-empty right (left) child, so the
      routine never follows a null pointer. */
  function Balance(node: Tree): (r: Tree)
    requires node.Node?
    ensures r.Node? && Inorder(r) == Inorder(node)
    ensures Bst(node) ==> Bst(r) && Content(r) == Content(node)
  {
    var n := FixHeight(node);
    if BalanceFactor(n) == -2 then
      var n' := if BalanceFactor(n.right) > 0 then n.(right := RotateRight(n.right)) else n;
      RotateLeft(n')
    else if BalanceFactor(n) == 2 then
      var n' := if BalanceFactor(n.left) < 0 then n.(left := RotateLeft(n.left)) else n;
      RotateRight(n')
    else
      n
  }

  /** Given AVL subtrees whose heights differ by at most two, Balance returns
      an AVL subtree with correct heights. Without rotation its height is one
      more than the higher child; a rotation leaves it between the height of
      the higher child and one more. */
  lemma BalanceCorrect(node: Tree)
    requires node.Node?
    requires Balanced(node.left) && Balanced(node.right)
    requires HeightsCorrect(node.left) && HeightsCorrect(node.right)
    requires -2 <= ActualHeight(node.left) - ActualHeight(node.right) <= 2
    ensures HeightsCorrect(Balance(node)) && Balanced(Balance(node))
    ensures var hl, hr := ActualHeight(node.left), ActualHeight(node.right);
            Max(hl, hr) <= ActualHeight(Balance(node)) <= 1 + Max(hl, hr)
    ensures -1 <= ActualHeight(node.left) - ActualHeight(node.right) <= 1 ==>
              Balance(node) == FixHeight(node)
  {
    var n := FixHeight(node);
    if BalanceFactor(n) == -2 {
      BalanceRightHeavy(node);
    } else if BalanceFactor(n) == 2 {
      BalanceLeftHeavy(node);
    }
  }

  /** The right-heavy case of Balance: a single left rotation, or a right
      rotation of the right child followed by a left rotation. */
  lemma BalanceRightHeavy(node: Tree)
    requires node.Node? && Balanced(node.left) && Balanced(node.right)
    requires HeightsCorrect(node.left) && HeightsCorrect(node.right)
    requires ActualHeight(node.right) == ActualHeight(node.left) + 2
    ensures HeightsCorrect(Balance(node)) && Balanced(Balance(node))
    ensures ActualHeight(node.right) <= ActualHeight(Balance(node)) <= ActualHeight(node.right) + 1
  {
    assert BalanceFactor(FixHeight(node)) == -2;
    if BalanceFactor(node.right) > 0 {
      BalanceRightLeft(node);
    } else {
      BalanceRightRight(node);
    }
  }

  /** Right child higher on its left: the double rotation. */
  lemma BalanceRightLeft(node: Tree)
    requires node.Node? && Balanced(node.left) && Balanced(node.right)
    requires HeightsCorrect(node.left) && HeightsCorrect(node.right)
    requires ActualHeight(node.right) == ActualHeight(node.left) + 2
    requires BalanceFactor(FixHeight(node)) == -2 && BalanceFactor(node.right) > 0
    ensures HeightsCorrect(Balance(node)) && Balanced(Balance(node))
    ensures ActualHeight(node.right) <= ActualHeight(Balance(node)) <= ActualHeight(node.right) + 1
  {
    var n := FixHeight(node);
    var l, r := node.left, node.right;
    var rl := r.left;
    RotateRightShape(r.key, r.height, rl.key, rl.height, rl.left, rl.right, r.right);
    var r' := RotateRight(r);
    assert Balance(node) == RotateLeft(n.(right := r'));
    RotateLeftShape(n.key, n.height, l, r'.key, r'.height, r'.left, r'.right);
  }

  /** Right child not higher on its left: a single left rotation. */
  lemma BalanceRightRight(node: Tree)
    requires node.Node? && Balanced(node.left) && Balanced(node.right)
    requires HeightsCorrect(node.left) && HeightsCorrect(node.right)
    requires ActualHeight(node.right) == ActualHeight(node.left) + 2
    requires BalanceFactor(FixHeight(node)) == -2 && BalanceFactor(node.right) <= 0
    ensures HeightsCorrect(Balance(node)) && Balanced(Balance(node))
    ensures ActualHeight(node.right) <= ActualHeight(Balance(node)) <= ActualHeight(node.right) + 1
  {
    var n := FixHeight(node);
    var l, r := node.left, node.right;
    assert Balance(node) == RotateLeft(n);
    RotateLeftShape(n.key, n.height, l, r.key, r.height, r.left, r.right);
  }

  /** The left-heavy case of Balance, symmetric to BalanceRightHeavy. */
  lemma BalanceLeftHeavy(node: Tree)
    requires node.Node? && Balanced(node.left) && Balanced(node.right)
    requires HeightsCorrect(node.left) && HeightsCorrect(node.right)
    requires ActualHeight(node.left) == ActualHeight(node.right) + 2
    ensures HeightsCorrect(Balance(node)) && Balanced(Balance(node))
    ensures ActualHeight(node.left) <= ActualHeight(Balance(node)) <= ActualHeight(node.left) + 1
  {
    assert BalanceFactor(FixHeight(node)) == 2;
    if BalanceFactor(node.left) < 0 {
      BalanceLeftRight(node);
    } else {
      BalanceLeftLeft(node);
    }
  }

  /** Left child higher on its right: the double rotation. */
  lemma BalanceLeftRight(node: Tree)
    requires node.Node? && Balanced(node.left) && Balanced(node.right)
    requires HeightsCorrect(node.left) && HeightsCorrect(node.right)
    requires ActualHeight(node.left) == ActualHeight(node.right) + 2
    requires BalanceFactor(FixHeight(node)) == 2 && BalanceFactor(node.left) < 0
    ensures HeightsCorrect(Balance(node)) && Balanced(Balance(node))
    ensures ActualHeight(node.left) <= ActualHeight(Balance(node)) <= ActualHeight(node.left) + 1
  {
    var n := FixHeight(node);
    var l, r := node.left, node.right;
    var lr := l.right;
    RotateLeftShape(l.key, l.height, l.left, lr.key, lr.height, lr.left, lr.right);
    var l' := RotateLeft(l);
    assert Balance(node) == RotateRight(n.(left := l'));
    RotateRightShape(n.key, n.height, l'.key, l'.height, l'.left, l'.right, r);
  }

  /** Left child not higher on its right: a single right rotation. */
  lemma BalanceLeftLeft(node: Tree)
    requires node.Node? && Balanced(node.left) && Balanced(node.right)
    requires HeightsCorrect(node.left) && HeightsCorrect(node.right)
    requires ActualHeight(node.left) == ActualHeight(node.right) + 2
    requires BalanceFactor(FixHeight(node)) == 2 && BalanceFactor(node.left) >= 0
    ensures HeightsCorrect(Balance(node)) && Balanced(Balance(node))
    ensures ActualHeight(node.left) <= ActualHeight(Balance(node)) <= ActualHeight(node.left) + 1
  {
    var n := FixHeight(node);
    var l, r := node.left, node.right;
    assert Balance(node) == RotateRight(n);
    RotateRightShape(n.key, n.height, l.key, l.height, l.left, l.right, r);
  }

  /** The tree a right rotation builds, with its heights. */
  lemma RotateRightShape(x: Product, hx: nat, y: Product, hy: nat, a: Tree, b: Tree, c: Tree)
    requires HeightsCorrect(a) && HeightsCorrect(b) && HeightsCorrect(c)
    ensures var q := RotateRight(Node(x, hx, Node(y, hy, a, b), c));
      && q == Node(y, q.height, a, Node(x, q.right.height, b, c))
      && HeightsCorrect(q)
      && ActualHeight(q.right) == 1 + Max(ActualHeight(b), ActualHeight(c))
      && ActualHeight(q) == 1 + Max(ActualHeight(a), ActualHeight(q.right))
  {
  }

  /** The tree a left rotation builds, with its heights. */
  lemma RotateLeftShape(x: Product, hx: nat, a: Tree, y: Product, hy: nat, b: Tree, c: Tree)
    requires HeightsCorrect(a) && HeightsCorrect(b) && HeightsCorrect(c)
    ensures var q := RotateLeft(Node(x, hx, a, Node(y, hy, b, c)));
      && q == Node(y, q.height, Node(x, q.left.height, a, b), c)
      && HeightsCorrect(q)
      && ActualHeight(q.left) == 1 + Max(ActualHeight(a), ActualHeight(b))
      && ActualHeight(q) == 1 + Max(ActualHeight(q.left), ActualHeight(c))
  {
  }

  /** On a node that is already AVL with correct heights, Balance changes nothing. */
  lemma BalanceKeepsAvl(node: Tree)
    requires node.Node? && IsAvl(node)
    ensures Balance(node) == node
  {
    assert FixHeight(node) == node;
  }

  // ---------------------------------------------------------------------
  // Insertion (AVL_Tree.h:45-51, 158-180)

  /** Descends by id; a node with the same id cancels the insertion and
      clears the flag, otherwise a new leaf is placed and every node on the
      way back up is rebalanced. The flag is passed through unchanged when
      the product is placed. */
  function InsertNode(node: Tree, product: Product, wasInserted: bool): (res: (Tree, bool))
    ensures res.1 ==> wasInserted
    ensures Bst(node) ==> (res.1 <==> wasInserted && product.id !in Content(node))
  {
    if node.Leaf? then
      (CreateNode(product), wasInserted)
    else if node.key.id == product.id then
      (node, false)
    else if product.id < node.key.id then
      var (l, flag) := InsertNode(node.left, product, wasInserted);
      (Balance(node.(left := l)), flag)
    else
      var (r, flag) := InsertNode(node.right, product, wasInserted);
      (Balance(node.(right := r)), flag)
  }

  /** What insertion into an AVL tree achieves: a present id leaves the very
      same tree and clears the flag; an absent id keeps the flag, adds exactly
      that product and grows the height by at most one; the result is AVL. */
  ghost predicate InsertsCorrectly(node: Tree, product: Product, wasInserted: bool) {
    var t, flag := InsertNode(node, product, wasInserted).0, InsertNode(node, product, wasInserted).1;
    && IsAvl(t)
    && (product.id in Keys(node) ==> t == node && !flag)
    && (product.id !in Keys(node) ==>
          && flag == wasInserted
          && Content(t) == Content(node)[product.id := product.name]
          && ActualHeight(node) <= ActualHeight(t) <= ActualHeight(node) + 1)
  }

  /** Insertion keeps the tree AVL and stores exactly the new product, or
      changes nothing when its id is present. */
  lemma {:induction false} InsertNodeCorrect(node: Tree, product: Product, wasInserted: bool)
    requires IsAvl(node)
    ensures InsertsCorrectly(node, product, wasInserted)
  {
    if node.Leaf? {
    } else if node.key.id == product.id {
    } else if product.id < node.key.id {
      InsertNodeCorrect(node.left, product, wasInserted);
      InsertLeftCase(node, product, wasInserted);
    } else {
      InsertNodeCorrect(node.right, product, wasInserted);
      InsertRightCase(node, product, wasInserted);
    }
  }

  lemma InsertLeftCase(node: Tree, product: Product, wasInserted: bool)
    requires node.Node? && IsAvl(node) && product.id < node.key.id
    requires InsertsCorrectly(node.left, product, wasInserted)
    ensures InsertsCorrectly(node, product, wasInserted)
  {
    var l := InsertNode(node.left, product, wasInserted).0;
    assert InsertNode(node, product, wasInserted).0 == Balance(node.(left := l));
    if product.id in Keys(node.left) {
      assert node.(left := l) == node;
      BalanceKeepsAvl(node);
    } else {
      BalanceNewLeft(node, l);
      MapInsertLeft(Content(node.left), Content(node.right), product.id, product.name, node.key.id, node.key.name);
    }
  }

  lemma InsertRightCase(node: Tree, product: Product, wasInserted: bool)
    requires node.Node? && IsAvl(node) && product.id > node.key.id
    requires InsertsCorrectly(node.right, product, wasInserted)
    ensures InsertsCorrectly(node, product, wasInserted)
  {
    var r := InsertNode(node.right, product, wasInserted).0;
    assert InsertNode(node, product, wasInserted).0 == Balance(node.(right := r));
    if product.id in Keys(node.right) {
      assert node.(right := r) == node;
      BalanceKeepsAvl(node);
    } else {
      BalanceNewRight(node, r);
      MapInsertRight(Content(node.left), Content(node.right), product.id, product.name, node.key.id, node.key.name);
    }
  }

  /** Rebalancing a node of an AVL tree whose left subtree was replaced by an
      AVL subtree one level higher or lower, or of the same height. */
  lemma BalanceNewLeft(node: Tree, l: Tree)
    requires node.Node? && IsAvl(node) && IsAvl(l)
    requires forall k :: k in Keys(l) ==> k < node.key.id
    requires ActualHeight(node.left) - 1 <= ActualHeight(l) <= ActualHeight(node.left) + 1
    ensures var t := Balance(node.(left := l));
      && IsAvl(t)
      && Content(t) == (Content(l) + Content(node.right))[node.key.id := node.key.name]
      && (ActualHeight(l) >= ActualHeight(node.left) ==>
            ActualHeight(node) <= ActualHeight(t) <= ActualHeight(node) + 1)
      && (ActualHeight(l) <= ActualHeight(node.left) ==>
            ActualHeight(node) - 1 <= ActualHeight(t) <= ActualHeight(node))
  {
    var n := node.(left := l);
    assert Bst(n);
    BalanceCorrect(n);
  }

  /** Rebalancing a node of an AVL tree whose right subtree was replaced by an
      AVL subtree one level higher or lower, or of the same height. */
  lemma BalanceNewRight(node: Tree, r: Tree)
    requires node.Node? && IsAvl(node) && IsAvl(r)
    requires forall k :: k in Keys(r) ==> node.key.id < k
    requires ActualHeight(node.right) - 1 <= ActualHeight(r) <= ActualHeight(node.right) + 1
    ensures var t := Balance(node.(right := r));
      && IsAvl(t)
      && Content(t) == (Content(node.left) + Content(r))[node.key.id := node.key.name]
      && (ActualHeight(r) >= ActualHeight(node.right) ==>
            ActualHeight(node) <= ActualHeight(t) <= ActualHeight(node) + 1)
      && (ActualHeight(r) <= ActualHeight(node.right) ==>
            ActualHeight(node) - 1 <= ActualHeight(t) <= ActualHeight(node))
  {
    var n := node.(right := r);
    assert Bst(n);
    BalanceCorrect(n);
  }

  lemma MapInsertLeft(ma: map<int, string>, mb: map<int, string>, p: int, vp: string, k: int, vk: string)
    requires p != k && p !in mb
    ensures (ma[p := vp] + mb)[k := vk] == (ma + mb)[k := vk][p := vp]
  {
    var lhs, rhs := (ma[p := vp] + mb)[k := vk], (ma + mb)[k := vk][p := vp];
    assert lhs.Keys == rhs.Keys;
    forall i | i in lhs ensures lhs[i] == rhs[i] {
    }
  }

  lemma MapInsertRight(ma: map<int, string>, mb: map<int, string>, p: int, vp: string, k: int, vk: string)
    requires p != k
    ensures (ma + mb[p := vp])[k := vk] == (ma + mb)[k := vk][p := vp]
  {
    var lhs, rhs := (ma + mb[p := vp])[k := vk], (ma + mb)[k := vk][p := vp];
    assert lhs.Keys == rhs.Keys;
    forall i | i in lhs ensures lhs[i] == rhs[i] {
    }
  }

  lemma MapRemoveLeft(ma: map<int, string>, mb: map<int, string>, p: int, k: int, vk: string)
    requires p != k && p !in mb
    ensures ((ma - {p}) + mb)[k := vk] == (ma + mb)[k := vk] - {p}
  {
    var lhs, rhs := ((ma - {p}) + mb)[k := vk], (ma + mb)[k := vk] - {p};
    assert lhs.Keys == rhs.Keys;
    forall i | i in lhs ensures lhs[i] == rhs[i] {
    }
  }

  lemma MapRemoveRight(ma: map<int, string>, mb: map<int, string>, p: int, k: int, vk: string)
    requires p != k && p !in ma
    ensures (ma + (mb - {p}))[k := vk] == (ma + mb)[k := vk] - {p}
  {
    var lhs, rhs := (ma + (mb - {p}))[k := vk], (ma + mb)[k := vk] - {p};
    assert lhs.Keys == rhs.Keys;
    forall i | i in lhs ensures lhs[i] == rhs[i] {
    }
  }

  // ---------------------------------------------------------------------
  // Removal (AVL_Tree.h:182-218)

  /** The left-most node of a non-empty subtree: the first product in order,
      and in a search tree the one with the smallest id. */
  function FindMinNode(node: Tree): (m: Tree)
    requires node.Node?
    ensures m.Node? && m.left.Leaf?
    ensures |Inorder(node)| > 0 && Inorder(node)[0] == m.key
    ensures Bst(node) ==> m.key.id in Keys(node) && forall k :: k in Keys(node) ==> m.key.id <= k
  {
    if node.left.Node? then FindMinNode(node.left) else node
  }

  /** Unlinks the left-most node, rebalancing on the way back up. */
  function RemoveMinNode(node: Tree): (r: Tree)
    requires node.Node?
    ensures Inorder(node) == [FindMinNode(node).key] + Inorder(r)
  {
    if node.left.Leaf? then
      node.right
    else
      Balance(node.(left := RemoveMinNode(node.left)))
  }

  /** Removing the minimum from an AVL tree removes exactly that product,
      keeps the tree AVL and lowers its height by at most one. */
  lemma {:induction false} RemoveMinNodeCorrect(node: Tree)
    requires node.Node? && IsAvl(node)
    ensures var t, m := RemoveMinNode(node), FindMinNode(node).key;
      && IsAvl(t)
      && m.id !in Keys(t)
      && Content(node) == Content(t)[m.id := m.name]
      && ActualHeight(node) - 1 <= ActualHeight(t) <= ActualHeight(node)
  {
    if node.left.Node? {
      var l := RemoveMinNode(node.left);
      RemoveMinNodeCorrect(node.left);
      var m := FindMinNode(node.left).key;
      assert FindMinNode(node).key == m;
      assert RemoveMinNode(node) == Balance(node.(left := l));
      assert Keys(l) <= Keys(node.left);
      BalanceNewLeft(node, l);
      MapInsertLeft(Content(l), Content(node.right), m.id, m.name, node.key.id, node.key.name);
    } else {
      assert RemoveMinNode(node) == node.right;
      assert FindMinNode(node).key == node.key;
    }
  }

  /** Removes the node with the given id, if any. A node without a right
      child is replaced by its left child; otherwise its in-order successor
      is unlinked from the right subtree and takes its place. Every node on
      the way back up is rebalanced. */
  function RemoveNode(node: Tree, id: int): (r: Tree)
    ensures forall p :: p in Inorder(r) ==> p in Inorder(node)
  {
    if node.Leaf? then
      Leaf
    else if id < node.key.id then
      Balance(node.(left := RemoveNode(node.left, id)))
    else if id > node.key.id then
      Balance(node.(right := RemoveNode(node.right, id)))
    else if node.right.Leaf? then
      node.left
    else
      var min := FindMinNode(node.right);
      Balance(min.(right := RemoveMinNode(node.right), left := node.left))
  }

  /** What removal from an AVL tree achieves: exactly the given id is gone,
      an absent id leaves the very same tree, the result is AVL and its
      height is at most one lower. */
  ghost predicate RemovesCorrectly(node: Tree, id: int) {
    var t := RemoveNode(node, id);
    && IsAvl(t)
    && Content(t) == Content(node) - {id}
    && (id !in Keys(node) ==> t == node)
    && ActualHeight(node) - 1 <= ActualHeight(t) <= ActualHeight(node)
  }

  /** Removal keeps the tree AVL and removes exactly the given id. */
  lemma {:induction false} RemoveNodeCorrect(node: Tree, id: int)
    requires IsAvl(node)
    ensures RemovesCorrectly(node, id)
  {
    if node.Leaf? {
    } else if id < node.key.id {
      RemoveNodeCorrect(node.left, id);
      RemoveLeftCase(node, id);
    } else if id > node.key.id {
      RemoveNodeCorrect(node.right, id);
      RemoveRightCase(node, id);
    } else if node.right.Leaf? {
      assert RemoveNode(node, id) == node.left;
      MapRemoveRoot(Content(node.left), id, node.key.name);
    } else {
      ReplaceBySuccessor(node);
    }
  }

  lemma RemoveLeftCase(node: Tree, id: int)
    requires node.Node? && IsAvl(node) && id < node.key.id
    requires RemovesCorrectly(node.left, id)
    ensures RemovesCorrectly(node, id)
  {
    var l := RemoveNode(node.left, id);
    assert RemoveNode(node, id) == Balance(node.(left := l));
    if id !in Keys(node.left) {
      assert node.(left := l) == node;
      BalanceKeepsAvl(node);
      assert Content(node) - {id} == Content(node);
    } else {
      BalanceNewLeft(node, l);
      MapRemoveLeft(Content(node.left), Content(node.right), id, node.key.id, node.key.name);
    }
  }

  lemma RemoveRightCase(node: Tree, id: int)
    requires node.Node? && IsAvl(node) && id > node.key.id
    requires RemovesCorrectly(node.right, id)
    ensures RemovesCorrectly(node, id)
  {
    var r := RemoveNode(node.right, id);
    assert RemoveNode(node, id) == Balance(node.(right := r));
    if id !in Keys(node.right) {
      assert node.(right := r) == node;
      BalanceKeepsAvl(node);
      assert Content(node) - {id} == Content(node);
    } else {
      BalanceNewRight(node, r);
      MapRemoveRight(Content(node.left), Content(node.right), id, node.key.id, node.key.name);
    }
  }

  /** The successor case of removal: the left-most node of the right subtree,
      unlinked from there, takes the place of the removed node. */
  lemma ReplaceBySuccessor(node: Tree)
    requires node.Node? && node.right.Node? && IsAvl(node)
    ensures var min := FindMinNode(node.right);
      var t := Balance(min.(right := RemoveMinNode(node.right), left := node.left));
      && IsAvl(t)
      && Content(t) == Content(node) - {node.key.id}
      && ActualHeight(node) - 1 <= ActualHeight(t) <= ActualHeight(node)
  {
    var min := FindMinNode(node.right);
    RemoveMinNodeCorrect(node.right);
    SuccessorStep(node, min.key, min.height, RemoveMinNode(node.right));
    assert min.(right := RemoveMinNode(node.right), left := node.left)
        == Node(min.key, min.height, node.left, RemoveMinNode(node.right));
  }

  /** Rebalancing the node that puts the successor `mk` over the removed
      node's left subtree and the right subtree `r` left once `mk` is out. */
  lemma SuccessorStep(node: Tree, mk: Product, mh: nat, r: Tree)
    requires node.Node? && node.right.Node? && IsAvl(node) && IsAvl(r)
    requires mk.id in Keys(node.right) && forall k :: k in Keys(node.right) ==> mk.id <= k
    requires mk.id !in Keys(r) && Content(node.right) == Content(r)[mk.id := mk.name]
    requires ActualHeight(node.right) - 1 <= ActualHeight(r) <= ActualHeight(node.right)
    ensures var t := Balance(Node(mk, mh, node.left, r));
      && IsAvl(t)
      && Content(t) == Content(node) - {node.key.id}
      && ActualHeight(node) - 1 <= ActualHeight(t) <= ActualHeight(node)
  {
    var n := Node(mk, mh, node.left, r);
    assert Keys(node.right) == Keys(r) + {mk.id};
    BelowMinimum(Keys(node.right), Keys(r), mk.id);
    assert node.key.id < mk.id;
    assert forall k :: k in Keys(node.left) ==> k < mk.id;
    assert Bst(n);
    BalanceCorrect(n);
    MapSuccessor(Content(node.left), Content(r), mk.id, mk.name, node.key.id, node.key.name);
  }

  lemma BelowMinimum(all: set<int>, rest: set<int>, m: int)
    requires forall k :: k in all ==> m <= k
    requires all == rest + {m} && m !in rest
    ensures forall k :: k in rest ==> m < k
  {
  }

  lemma MapRemoveRoot(ma: map<int, string>, k: int, vk: string)
    requires k !in ma
    ensures (ma + map[])[k := vk] - {k} == ma
  {
    assert ((ma + map[])[k := vk] - {k}).Keys == ma.Keys;
  }

  lemma MapSuccessor(ma: map<int, string>, mb: map<int, string>, m: int, vm: string, k: int, vk: string)
    requires k !in ma && k !in mb && k != m
    ensures (ma + mb[m := vm])[k := vk] - {k} == (ma + mb)[m := vm]
  {
    var lhs, rhs := (ma + mb[m := vm])[k := vk] - {k}, (ma + mb)[m := vm];
    assert lhs.Keys == rhs.Keys;
    forall i | i in lhs ensures lhs[i] == rhs[i] {
    }
  }

  // ---------------------------------------------------------------------
  // Lookups (used at ProductsImpl.h:41 and ProductsImpl.h:50)

  /** Descends by id to the node holding it, or to `Leaf` when there is none. */
  function FindNode(node: Tree, id: int): (n: Tree)
    ensures n.Node? ==> n.key.id == id
    ensures Bst(node) ==> (n.Node? <==> id in Content(node))
    ensures Bst(node) && n.Node? ==> n.key.name == Content(node)[id]
  {
    if node.Leaf? then Leaf
    else if id < node.key.id then FindNode(node.left, id)
    else if id > node.key.id then FindNode(node.right, id)
    else node
  }

  /** The subtree the descent reaches is part of the tree. */
  lemma {:induction false} FindNodeWithin(t: Tree, id: int)
    ensures Keys(FindNode(t, id)) <= Keys(t)
  {
    if t.Node? {
      if id < t.key.id {
        FindNodeWithin(t.left, id);
      } else if id > t.key.id {
        FindNodeWithin(t.right, id);
      }
    }
  }

  /** The name stored for an id, or the empty string when there is none. */
  function SearchById(node: Tree, id: int): (name: string)
    ensures Bst(node) ==> name == if id in Content(node) then Content(node)[id] else ""
  {
    var n := FindNode(node, id);
    if n.Leaf? then "" else n.key.name
  }

  /** Looking an id up right after inserting it finds the new name, or the
      name already stored when the insertion was refused. */
  lemma InsertThenSearch(t: Tree, p: Product)
    requires IsAvl(t)
    ensures SearchById(InsertNode(t, p, true).0, p.id) ==
              if p.id in Keys(t) then Content(t)[p.id] else p.name
  {
    InsertNodeCorrect(t, p, true);
  }

  /** Looking an id up right after removing it finds nothing. */
  lemma RemoveThenSearch(t: Tree, id: int)
    requires IsAvl(t)
    ensures SearchById(RemoveNode(t, id), id) == ""
  {
    RemoveNodeCorrect(t, id);
  }

  /** The ids whose name matches, collected in pre-order (node, then left
      subtree, then right subtree). In a search tree these are exactly the
      stored ids with that name, each once. */
  function SearchByName(node: Tree, name: string): (ids: seq<int>)
    ensures forall id :: id in ids ==> id in Keys(node)
    ensures Bst(node) ==> forall id :: id in ids <==> id in Content(node) && Content(node)[id] == name
    ensures Bst(node) ==> Distinct(ids)
  {
    match node
    case Leaf => []
    case Node(p, _, l, r) =>
      var here, inLeft, inRight := (if p.name == name then [p.id] else []), SearchByName(l, name), SearchByName(r, name);
      DistinctConcat(here, inLeft);
      DistinctConcat(here + inLeft, inRight);
      here + inLeft + inRight
  }

  /** No element occurs twice. */
  ghost predicate Distinct(s: seq<int>) {
    forall i, j :: 0 <= i < j < |s| ==> s[i] != s[j]
  }

  lemma DistinctConcat(a: seq<int>, b: seq<int>)
    ensures Distinct(a) && Distinct(b) && (forall x :: x in a ==> x !in b) ==> Distinct(a + b)
  {
    if Distinct(a) && Distinct(b) && (forall x :: x in a ==> x !in b) {
      forall i, j | 0 <= i < j < |a + b| ensures (a + b)[i] != (a + b)[j] {
        if j < |a| {
        } else if i >= |a| {
          assert (a + b)[i] == b[i - |a|] && (a + b)[j] == b[j - |a|];
        } else {
          assert (a + b)[i] == a[i] && (a + b)[j] == b[j - |a|] && b[j - |a|] in b;
        }
      }
    }
  }

  // ---------------------------------------------------------------------
  // The tree object (AVL_Tree.h:24-58)

  /** The AVL_Tree class: it owns the root of the node structure. */
  class AvlTree {
    var head: Tree

    ghost predicate Valid()
      reads this
    {
      IsAvl(head)
    }

    /** The id -> name contents of the whole tree. */
    ghost function Items(): map<int, string>
      reads this
    {
      Content(head)
    }

    constructor()
      ensures Valid() && head == Leaf && Items() == map[]
    {
      head := Leaf;
    }

    /** Adds the product unless its id is already stored; reports which. */
    method Insert(product: Product) returns (wasInserted: bool)
      requires Valid()
      modifies this
      ensures Valid()
      ensures head == InsertNode(old(head), product, true).0
      ensures wasInserted == (product.id !in old(Items()))
      ensures Items() == if wasInserted then old(Items())[product.id := product.name] else old(Items())
      ensures !wasInserted ==> head == old(head)
    {
      wasInserted := true;
      InsertNodeCorrect(head, product, wasInserted);
      var res := InsertNode(head, product, wasInserted);
      head := res.0;
      wasInserted := res.1;
    }

    /** Removes the product with that id, storing the new root and reporting
        whether the id was present (see RemoveAsWritten for the source's form). */
    method Remove(productId: int) returns (removed: bool)
      requires Valid()
      modifies this
      ensures Valid()
      ensures head == RemoveNode(old(head), productId)
      ensures removed == (productId in old(Items()))
      ensures Items() == old(Items()) - {productId}
      ensures !removed ==> head == old(head)
    {
      removed := FindNode(head, productId).Node?;
      RemoveNodeCorrect(head, productId);
      head := RemoveNode(head, productId);
    }
  }
}
