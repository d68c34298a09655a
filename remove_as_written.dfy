/** AVL_Tree::Remove as the source writes it (AVL_Tree.h:54-58): the node
    routine relinks the nodes in place, but its result (the new root) is
    discarded, `head` keeps pointing at the object that was the root before
    the call, and the method reports success whatever happened. */
module AsWritten {
  import opened Products
  import opened Avl

  /** What `head` points at after the call: the object that was the root
      was freed (the removed product was the root), or it still exists and
      now heads the subtree it was relinked into. */
  datatype HeadAfter = Dangling | Points(root: Tree)

  /** The removal as written: the old root object keeps its identity; in a
      search tree objects and ids correspond one to one, so the subtree that
      object heads afterwards is the subtree of the new tree rooted at its id. */
  function RemoveAsWritten(head: Tree, id: int): (res: (HeadAfter, bool))
    ensures res.1
    ensures head.Leaf? ==> res.0 == Points(Leaf)
    ensures head.Node? && head.key.id == id ==> res.0 == Dangling
    ensures head.Node? && head.key.id != id && IsAvl(head) ==>
              && res.0.Points? && res.0.root.Node? && res.0.root.key.id == head.key.id
              && Keys(res.0.root) <= Keys(RemoveNode(head, id))
  {
    if head.Leaf? then
      (Points(Leaf), true)
    else if head.key.id == id then
      (Dangling, true)
    else
      RemoveNodeCorrectKeys(head, id);
      FindNodeWithin(RemoveNode(head, id), head.key.id);
      (Points(FindNode(RemoveNode(head, id), head.key.id)), true)
  }

  /** Removal of another id keeps the root's id in the tree. */
  lemma RemoveNodeCorrectKeys(head: Tree, id: int)
    ensures head.Node? && head.key.id != id && IsAvl(head) ==>
              IsAvl(RemoveNode(head, id)) && head.key.id in Content(RemoveNode(head, id))
  {
    if head.Node? && IsAvl(head) {
      RemoveNodeCorrect(head, id);
    }
  }

  /** The report is true for an id that is not stored: removing id 9 from
      the empty catalogue answers true, where the catalogue promises false. */
  lemma ReportsAbsentIdAsRemoved()
    ensures 9 !in Content(Leaf)
    ensures RemoveAsWritten(Leaf, 9).1
  {
  }

  const P1 := Product(1, "a")
  const P2 := Product(2, "b")
  const P3 := Product(3, "c")
  const P4 := Product(4, "d")

  /** An AVL tree whose root is rotated away when id 1 is removed:
      2(1, 3(-, 4)). */
  const Before: Tree := Node(P2, 3, Node(P1, 1, Leaf, Leaf), Node(P3, 2, Leaf, Node(P4, 1, Leaf, Leaf)))

  /** Before is a well-formed AVL tree. */
  lemma BeforeIsAvl()
    ensures IsAvl(Before)
  {
    BeforeBst();
    BeforeHeights();
    BeforeBalanced();
  }

  lemma BeforeBst()
    ensures Bst(Before)
  {
  }

  lemma BeforeHeights()
    ensures HeightsCorrect(Before)
  {
  }

  lemma BeforeBalanced()
    ensures Balanced(Before)
  {
  }

  /** The tree the node routine builds when id 1 is removed from Before: 3(2, 4). */
  const AfterRemovingOne: Tree := Node(P3, 2, Node(P2, 1, Leaf, Leaf), Node(P4, 1, Leaf, Leaf))

  /** Removing id 1 empties the left subtree; rebalancing 2(-, 3(-, 4)) is a
      single left rotation. */
  lemma RemovingOne()
    ensures RemoveNode(Before, 1) == AfterRemovingOne
  {
    assert RemoveNode(Before.left, 1) == Leaf;
    assert RemoveNode(Before, 1) == Balance(Before.(left := Leaf));
    assert FixHeight(Before.(left := Leaf)) == Before.(left := Leaf);
  }

  /** Removing id 1 rotates 3 above 2, but `head` still points at the object
      holding 2, which now heads a one-node subtree: ids 3 and 4 are no
      longer reachable from `head`, while the corrected removal keeps them. */
  lemma LosesNodesAfterRotation()
    ensures IsAvl(Before) && 1 in Content(Before)
    ensures RemoveAsWritten(Before, 1) == (Points(Node(P2, 1, Leaf, Leaf)), true)
    ensures Content(Node(P2, 1, Leaf, Leaf)) == map[2 := "b"]
    ensures Content(RemoveNode(Before, 1)) == map[2 := "b", 3 := "c", 4 := "d"]
  {
    BeforeIsAvl();
    RemovingOne();
    HeadAfterRemovingOne();
    ContentAfterRemovingOne();
    RootAloneContent();
  }

  lemma RootAloneContent()
    ensures Content(Node(P2, 1, Leaf, Leaf)) == map[2 := "b"]
  {
  }

  lemma HeadAfterRemovingOne()
    requires RemoveNode(Before, 1) == AfterRemovingOne
    ensures RemoveAsWritten(Before, 1) == (Points(Node(P2, 1, Leaf, Leaf)), true)
  {
    assert FindNode(AfterRemovingOne, 2) == Node(P2, 1, Leaf, Leaf);
  }

  lemma ContentAfterRemovingOne()
    ensures Content(AfterRemovingOne) == map[2 := "b", 3 := "c", 4 := "d"]
  {
  }

  /** Removing the id of the root frees the object `head` points at, although
      the node routine built the right tree. */
  lemma LeavesHeadDanglingOnRootRemoval()
    ensures RemoveAsWritten(Before, 2) == (Dangling, true)
    ensures RemoveNode(Before, 2) == Node(P3, 2, Node(P1, 1, Leaf, Leaf), Node(P4, 1, Leaf, Leaf))
  {
    assert FindMinNode(Before.right) == Before.right;
    assert RemoveMinNode(Before.right) == Node(P4, 1, Leaf, Leaf);
    assert FixHeight(Node(P3, 2, Before.left, Node(P4, 1, Leaf, Leaf))) == Node(P3, 2, Before.left, Node(P4, 1, Leaf, Leaf));
  }
}
