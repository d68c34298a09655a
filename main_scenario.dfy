/** The sequence of catalogue calls made by main.cpp, computed on the node
    routines: eight insertions with ids 0 to 7, a rejected duplicate, four
    id lookups, two name lookups and two deletions. */
module Scenario {
  import opened Products
  import opened Avl

  // The tree after each of the eight insertions, written out in full
  // (shape: id(left, right), `-` for an empty child).

  /** 0 */
  const T1: Tree := Node(Product(0, "hello"), 1, Leaf, Leaf)

  /** 0(-, 1) */
  const T2: Tree := Node(Product(0, "hello"), 2, Leaf, Node(Product(1, "bye"), 1, Leaf, Leaf))

  /** 1(0, 2) */
  const T3: Tree := Node(Product(1, "bye"), 2, Node(Product(0, "hello"), 1, Leaf, Leaf), Node(Product(2, "hello"), 1, Leaf, Leaf))

  /** 1(0, 2(-, 3)) */
  const T4: Tree := Node(Product(1, "bye"), 3, Node(Product(0, "hello"), 1, Leaf, Leaf), Node(Product(2, "hello"), 2, Leaf, Node(Product(3, "sea"), 1, Leaf, Leaf)))

  /** 1(0, 3(2, 4)) */
  const T5: Tree := Node(Product(1, "bye"), 3, Node(Product(0, "hello"), 1, Leaf, Leaf), Node(Product(3, "sea"), 2, Node(Product(2, "hello"), 1, Leaf, Leaf), Node(Product(4, "hello"), 1, Leaf, Leaf)))

  /** 3(1(0, 2), 4(-, 5)) */
  const T6: Tree := Node(Product(3, "sea"), 3, Node(Product(1, "bye"), 2, Node(Product(0, "hello"), 1, Leaf, Leaf), Node(Product(2, "hello"), 1, Leaf, Leaf)), Node(Product(4, "hello"), 2, Leaf, Node(Product(5, "tea"), 1, Leaf, Leaf)))

  /** 3(1(0, 2), 5(4, 6)) */
  const T7: Tree := Node(Product(3, "sea"), 3, Node(Product(1, "bye"), 2, Node(Product(0, "hello"), 1, Leaf, Leaf), Node(Product(2, "hello"), 1, Leaf, Leaf)), Node(Product(5, "tea"), 2, Node(Product(4, "hello"), 1, Leaf, Leaf), Node(Product(6, "hello"), 1, Leaf, Leaf)))

  /** 3(1(0, 2), 5(4, 6(-, 7))) */
  const T8: Tree := Node(Product(3, "sea"), 4, Node(Product(1, "bye"), 2, Node(Product(0, "hello"), 1, Leaf, Leaf), Node(Product(2, "hello"), 1, Leaf, Leaf)), Node(Product(5, "tea"), 3, Node(Product(4, "hello"), 1, Leaf, Leaf), Node(Product(6, "hello"), 2, Leaf, Node(Product(7, "map"), 1, Leaf, Leaf))))

  /** Adding id 0 to the empty tree gives the single node 0. */
  lemma Insert0()
    ensures InsertNode(Leaf, Product(0, "hello"), true) == (T1, true)
  {
  }

  /** Adding id 1 to 0 gives 0(-, 1). */
  lemma Insert1()
    ensures InsertNode(T1, Product(1, "bye"), true) == (T2, true)
  {
    NoRotation(Node(Product(0, "hello"), 1, Leaf, Node(Product(1, "bye"), 1, Leaf, Leaf)), 2);
    DescendsToRight(Node(Product(0, "hello"), 1, Leaf, Leaf), Product(1, "bye"), Node(Product(1, "bye"), 1, Leaf, Leaf));
  }

  /** Adding id 2 to 0(-, 1) gives 1(0, 2). */
  lemma Insert2()
    ensures InsertNode(T2, Product(2, "hello"), true) == (T3, true)
  {
    Insert2Below1();
    Rotation1();
    DescendsToRight(Node(Product(0, "hello"), 2, Leaf, Node(Product(1, "bye"), 1, Leaf, Leaf)), Product(2, "hello"), Node(Product(1, "bye"), 2, Leaf, Node(Product(2, "hello"), 1, Leaf, Leaf)));
  }

  /** Adding id 3 to 1(0, 2) gives 1(0, 2(-, 3)). */
  lemma Insert3()
    ensures InsertNode(T3, Product(3, "sea"), true) == (T4, true)
  {
    Insert3Below2();
    NoRotation(Node(Product(1, "bye"), 2, Node(Product(0, "hello"), 1, Leaf, Leaf), Node(Product(2, "hello"), 2, Leaf, Node(Product(3, "sea"), 1, Leaf, Leaf))), 3);
    DescendsToRight(Node(Product(1, "bye"), 2, Node(Product(0, "hello"), 1, Leaf, Leaf), Node(Product(2, "hello"), 1, Leaf, Leaf)), Product(3, "sea"), Node(Product(2, "hello"), 2, Leaf, Node(Product(3, "sea"), 1, Leaf, Leaf)));
  }

  /** Adding id 4 to 1(0, 2(-, 3)) gives 1(0, 3(2, 4)). */
  lemma Insert4()
    ensures InsertNode(T4, Product(4, "hello"), true) == (T5, true)
  {
    Insert4Below2();
    NoRotation(Node(Product(1, "bye"), 3, Node(Product(0, "hello"), 1, Leaf, Leaf), Node(Product(3, "sea"), 2, Node(Product(2, "hello"), 1, Leaf, Leaf), Node(Product(4, "hello"), 1, Leaf, Leaf))), 3);
    DescendsToRight(Node(Product(1, "bye"), 3, Node(Product(0, "hello"), 1, Leaf, Leaf), Node(Product(2, "hello"), 2, Leaf, Node(Product(3, "sea"), 1, Leaf, Leaf))), Product(4, "hello"), Node(Product(3, "sea"), 2, Node(Product(2, "hello"), 1, Leaf, Leaf), Node(Product(4, "hello"), 1, Leaf, Leaf)));
  }

  /** Adding id 5 to 1(0, 3(2, 4)) gives 3(1(0, 2), 4(-, 5)). */
  lemma Insert5()
    ensures InsertNode(T5, Product(5, "tea"), true) == (T6, true)
  {
    Insert5Below3();
    Rotation3();
    DescendsToRight(Node(Product(1, "bye"), 3, Node(Product(0, "hello"), 1, Leaf, Leaf), Node(Product(3, "sea"), 2, Node(Product(2, "hello"), 1, Leaf, Leaf), Node(Product(4, "hello"), 1, Leaf, Leaf))), Product(5, "tea"), Node(Product(3, "sea"), 3, Node(Product(2, "hello"), 1, Leaf, Leaf), Node(Product(4, "hello"), 2, Leaf, Node(Product(5, "tea"), 1, Leaf, Leaf))));
  }

  /** Adding id 6 to 3(1(0, 2), 4(-, 5)) gives 3(1(0, 2), 5(4, 6)). */
  lemma Insert6()
    ensures InsertNode(T6, Product(6, "hello"), true) == (T7, true)
  {
    Insert6Below4();
    NoRotation(Node(Product(3, "sea"), 3, Node(Product(1, "bye"), 2, Node(Product(0, "hello"), 1, Leaf, Leaf), Node(Product(2, "hello"), 1, Leaf, Leaf)), Node(Product(5, "tea"), 2, Node(Product(4, "hello"), 1, Leaf, Leaf), Node(Product(6, "hello"), 1, Leaf, Leaf))), 3);
    DescendsToRight(Node(Product(3, "sea"), 3, Node(Product(1, "bye"), 2, Node(Product(0, "hello"), 1, Leaf, Leaf), Node(Product(2, "hello"), 1, Leaf, Leaf)), Node(Product(4, "hello"), 2, Leaf, Node(Product(5, "tea"), 1, Leaf, Leaf))), Product(6, "hello"), Node(Product(5, "tea"), 2, Node(Product(4, "hello"), 1, Leaf, Leaf), Node(Product(6, "hello"), 1, Leaf, Leaf)));
  }

  /** Adding id 7 to 3(1(0, 2), 5(4, 6)) gives 3(1(0, 2), 5(4, 6(-, 7))). */
  lemma Insert7()
    ensures InsertNode(T7, Product(7, "map"), true) == (T8, true)
  {
    Insert7Below5();
    NoRotation(Node(Product(3, "sea"), 3, Node(Product(1, "bye"), 2, Node(Product(0, "hello"), 1, Leaf, Leaf), Node(Product(2, "hello"), 1, Leaf, Leaf)), Node(Product(5, "tea"), 3, Node(Product(4, "hello"), 1, Leaf, Leaf), Node(Product(6, "hello"), 2, Leaf, Node(Product(7, "map"), 1, Leaf, Leaf)))), 4);
    DescendsToRight(Node(Product(3, "sea"), 3, Node(Product(1, "bye"), 2, Node(Product(0, "hello"), 1, Leaf, Leaf), Node(Product(2, "hello"), 1, Leaf, Leaf)), Node(Product(5, "tea"), 2, Node(Product(4, "hello"), 1, Leaf, Leaf), Node(Product(6, "hello"), 1, Leaf, Leaf))), Product(7, "map"), Node(Product(5, "tea"), 3, Node(Product(4, "hello"), 1, Leaf, Leaf), Node(Product(6, "hello"), 2, Leaf, Node(Product(7, "map"), 1, Leaf, Leaf))));
  }

  // The insertions below the root, one level at a time.

  /** Adding id 2 to 1 gives 1(-, 2). */
  lemma Insert2Below1()
    ensures InsertNode(Node(Product(1, "bye"), 1, Leaf, Leaf), Product(2, "hello"), true) == (Node(Product(1, "bye"), 2, Leaf, Node(Product(2, "hello"), 1, Leaf, Leaf)), true)
  {
    NoRotation(Node(Product(1, "bye"), 1, Leaf, Node(Product(2, "hello"), 1, Leaf, Leaf)), 2);
    DescendsToRight(Node(Product(1, "bye"), 1, Leaf, Leaf), Product(2, "hello"), Node(Product(2, "hello"), 1, Leaf, Leaf));
  }

  /** Adding id 3 to 2 gives 2(-, 3). */
  lemma Insert3Below2()
    ensures InsertNode(Node(Product(2, "hello"), 1, Leaf, Leaf), Product(3, "sea"), true) == (Node(Product(2, "hello"), 2, Leaf, Node(Product(3, "sea"), 1, Leaf, Leaf)), true)
  {
    NoRotation(Node(Product(2, "hello"), 1, Leaf, Node(Product(3, "sea"), 1, Leaf, Leaf)), 2);
    DescendsToRight(Node(Product(2, "hello"), 1, Leaf, Leaf), Product(3, "sea"), Node(Product(3, "sea"), 1, Leaf, Leaf));
  }

  /** Adding id 4 to 3 gives 3(-, 4). */
  lemma Insert4Below3()
    ensures InsertNode(Node(Product(3, "sea"), 1, Leaf, Leaf), Product(4, "hello"), true) == (Node(Product(3, "sea"), 2, Leaf, Node(Product(4, "hello"), 1, Leaf, Leaf)), true)
  {
    NoRotation(Node(Product(3, "sea"), 1, Leaf, Node(Product(4, "hello"), 1, Leaf, Leaf)), 2);
    DescendsToRight(Node(Product(3, "sea"), 1, Leaf, Leaf), Product(4, "hello"), Node(Product(4, "hello"), 1, Leaf, Leaf));
  }

  /** Adding id 4 to 2(-, 3) gives 3(2, 4). */
  lemma Insert4Below2()
    ensures InsertNode(Node(Product(2, "hello"), 2, Leaf, Node(Product(3, "sea"), 1, Leaf, Leaf)), Product(4, "hello"), true) == (Node(Product(3, "sea"), 2, Node(Product(2, "hello"), 1, Leaf, Leaf), Node(Product(4, "hello"), 1, Leaf, Leaf)), true)
  {
    Insert4Below3();
    Rotation2();
    DescendsToRight(Node(Product(2, "hello"), 2, Leaf, Node(Product(3, "sea"), 1, Leaf, Leaf)), Product(4, "hello"), Node(Product(3, "sea"), 2, Leaf, Node(Product(4, "hello"), 1, Leaf, Leaf)));
  }

  /** Adding id 5 to 4 gives 4(-, 5). */
  lemma Insert5Below4()
    ensures InsertNode(Node(Product(4, "hello"), 1, Leaf, Leaf), Product(5, "tea"), true) == (Node(Product(4, "hello"), 2, Leaf, Node(Product(5, "tea"), 1, Leaf, Leaf)), true)
  {
    NoRotation(Node(Product(4, "hello"), 1, Leaf, Node(Product(5, "tea"), 1, Leaf, Leaf)), 2);
    DescendsToRight(Node(Product(4, "hello"), 1, Leaf, Leaf), Product(5, "tea"), Node(Product(5, "tea"), 1, Leaf, Leaf));
  }

  /** Adding id 5 to 3(2, 4) gives 3(2, 4(-, 5)). */
  lemma Insert5Below3()
    ensures InsertNode(Node(Product(3, "sea"), 2, Node(Product(2, "hello"), 1, Leaf, Leaf), Node(Product(4, "hello"), 1, Leaf, Leaf)), Product(5, "tea"), true) == (Node(Product(3, "sea"), 3, Node(Product(2, "hello"), 1, Leaf, Leaf), Node(Product(4, "hello"), 2, Leaf, Node(Product(5, "tea"), 1, Leaf, Leaf))), true)
  {
    Insert5Below4();
    NoRotation(Node(Product(3, "sea"), 2, Node(Product(2, "hello"), 1, Leaf, Leaf), Node(Product(4, "hello"), 2, Leaf, Node(Product(5, "tea"), 1, Leaf, Leaf))), 3);
    DescendsToRight(Node(Product(3, "sea"), 2, Node(Product(2, "hello"), 1, Leaf, Leaf), Node(Product(4, "hello"), 1, Leaf, Leaf)), Product(5, "tea"), Node(Product(4, "hello"), 2, Leaf, Node(Product(5, "tea"), 1, Leaf, Leaf)));
  }

  /** Adding id 6 to 5 gives 5(-, 6). */
  lemma Insert6Below5()
    ensures InsertNode(Node(Product(5, "tea"), 1, Leaf, Leaf), Product(6, "hello"), true) == (Node(Product(5, "tea"), 2, Leaf, Node(Product(6, "hello"), 1, Leaf, Leaf)), true)
  {
    NoRotation(Node(Product(5, "tea"), 1, Leaf, Node(Product(6, "hello"), 1, Leaf, Leaf)), 2);
    DescendsToRight(Node(Product(5, "tea"), 1, Leaf, Leaf), Product(6, "hello"), Node(Product(6, "hello"), 1, Leaf, Leaf));
  }

  /** Adding id 6 to 4(-, 5) gives 5(4, 6). */
  lemma Insert6Below4()
    ensures InsertNode(Node(Product(4, "hello"), 2, Leaf, Node(Product(5, "tea"), 1, Leaf, Leaf)), Product(6, "hello"), true) == (Node(Product(5, "tea"), 2, Node(Product(4, "hello"), 1, Leaf, Leaf), Node(Product(6, "hello"), 1, Leaf, Leaf)), true)
  {
    Insert6Below5();
    Rotation4();
    DescendsToRight(Node(Product(4, "hello"), 2, Leaf, Node(Product(5, "tea"), 1, Leaf, Leaf)), Product(6, "hello"), Node(Product(5, "tea"), 2, Leaf, Node(Product(6, "hello"), 1, Leaf, Leaf)));
  }

  /** Adding id 7 to 6 gives 6(-, 7). */
  lemma Insert7Below6()
    ensures InsertNode(Node(Product(6, "hello"), 1, Leaf, Leaf), Product(7, "map"), true) == (Node(Product(6, "hello"), 2, Leaf, Node(Product(7, "map"), 1, Leaf, Leaf)), true)
  {
    NoRotation(Node(Product(6, "hello"), 1, Leaf, Node(Product(7, "map"), 1, Leaf, Leaf)), 2);
    DescendsToRight(Node(Product(6, "hello"), 1, Leaf, Leaf), Product(7, "map"), Node(Product(7, "map"), 1, Leaf, Leaf));
  }

  /** Adding id 7 to 5(4, 6) gives 5(4, 6(-, 7)). */
  lemma Insert7Below5()
    ensures InsertNode(Node(Product(5, "tea"), 2, Node(Product(4, "hello"), 1, Leaf, Leaf), Node(Product(6, "hello"), 1, Leaf, Leaf)), Product(7, "map"), true) == (Node(Product(5, "tea"), 3, Node(Product(4, "hello"), 1, Leaf, Leaf), Node(Product(6, "hello"), 2, Leaf, Node(Product(7, "map"), 1, Leaf, Leaf))), true)
  {
    Insert7Below6();
    NoRotation(Node(Product(5, "tea"), 2, Node(Product(4, "hello"), 1, Leaf, Leaf), Node(Product(6, "hello"), 2, Leaf, Node(Product(7, "map"), 1, Leaf, Leaf))), 3);
    DescendsToRight(Node(Product(5, "tea"), 2, Node(Product(4, "hello"), 1, Leaf, Leaf), Node(Product(6, "hello"), 1, Leaf, Leaf)), Product(7, "map"), Node(Product(6, "hello"), 2, Leaf, Node(Product(7, "map"), 1, Leaf, Leaf)));
  }

  // The rotations the insertions perform.

  /** Rebalancing 0(-, 1(-, 2)) gives 1(0, 2). */
  lemma Rotation1()
    ensures Balance(Node(Product(0, "hello"), 2, Leaf, Node(Product(1, "bye"), 2, Leaf, Node(Product(2, "hello"), 1, Leaf, Leaf)))) == Node(Product(1, "bye"), 2, Node(Product(0, "hello"), 1, Leaf, Leaf), Node(Product(2, "hello"), 1, Leaf, Leaf))
  {
  }

  /** Rebalancing 2(-, 3(-, 4)) gives 3(2, 4). */
  lemma Rotation2()
    ensures Balance(Node(Product(2, "hello"), 2, Leaf, Node(Product(3, "sea"), 2, Leaf, Node(Product(4, "hello"), 1, Leaf, Leaf)))) == Node(Product(3, "sea"), 2, Node(Product(2, "hello"), 1, Leaf, Leaf), Node(Product(4, "hello"), 1, Leaf, Leaf))
  {
  }

  /** Rebalancing 1(0, 3(2, 4(-, 5))) gives 3(1(0, 2), 4(-, 5)). */
  lemma Rotation3()
    ensures Balance(Node(Product(1, "bye"), 3, Node(Product(0, "hello"), 1, Leaf, Leaf), Node(Product(3, "sea"), 3, Node(Product(2, "hello"), 1, Leaf, Leaf), Node(Product(4, "hello"), 2, Leaf, Node(Product(5, "tea"), 1, Leaf, Leaf))))) == Node(Product(3, "sea"), 3, Node(Product(1, "bye"), 2, Node(Product(0, "hello"), 1, Leaf, Leaf), Node(Product(2, "hello"), 1, Leaf, Leaf)), Node(Product(4, "hello"), 2, Leaf, Node(Product(5, "tea"), 1, Leaf, Leaf)))
  {
  }

  /** Rebalancing 4(-, 5(-, 6)) gives 5(4, 6). */
  lemma Rotation4()
    ensures Balance(Node(Product(4, "hello"), 2, Leaf, Node(Product(5, "tea"), 2, Leaf, Node(Product(6, "hello"), 1, Leaf, Leaf)))) == Node(Product(5, "tea"), 2, Node(Product(4, "hello"), 1, Leaf, Leaf), Node(Product(6, "hello"), 1, Leaf, Leaf))
  {
  }

  /** Balance only refreshes the height of a node whose children's heights
      differ by at most one. */
  lemma NoRotation(node: Tree, h: nat)
    requires node.Node? && -1 <= Height(node.left) - Height(node.right) <= 1
    requires h == 1 + Max(Height(node.left), Height(node.right))
    ensures Balance(node) == node.(height := h)
  {
  }

  /** One level of the descent of InsertNode to the right, for a new id. */
  lemma DescendsToRight(node: Tree, p: Product, r: Tree)
    requires node.Node? && p.id > node.key.id && InsertNode(node.right, p, true) == (r, true)
    ensures InsertNode(node, p, true) == (Balance(node.(right := r)), true)
  {
  }

  /** Adding id 4 a second time is refused and leaves the tree as it was. */
  lemma DuplicateRejected()
    ensures InsertNode(T8, Product(4, "hello"), true) == (T8, false)
  {
  }

  /** The id lookups of main.cpp: absent ids give the empty string. */
  lemma NameLookups()
    ensures SearchById(T8, 8888) == "" && SearchById(T8, 4) == "hello"
    ensures SearchById(T8, -322) == "" && SearchById(T8, 5) == "tea"
  {
  }

  /** The name lookups of main.cpp: the four ids named "hello", in the order
      the traversal meets them, and nothing for a name that is not stored. */
  lemma ByNameLookups()
    ensures SearchByName(T8, "hello") == [0, 2, 4, 6]
    ensures SearchByName(T8, "rock") == []
  {
    LeftByName();
    RightByName();
  }

  lemma LeftByName()
    ensures SearchByName(Node(Product(1, "bye"), 2, Node(Product(0, "hello"), 1, Leaf, Leaf), Node(Product(2, "hello"), 1, Leaf, Leaf)), "hello") == [0, 2]
    ensures SearchByName(Node(Product(1, "bye"), 2, Node(Product(0, "hello"), 1, Leaf, Leaf), Node(Product(2, "hello"), 1, Leaf, Leaf)), "rock") == []
  {
  }

  lemma RightByName()
    ensures SearchByName(Node(Product(5, "tea"), 3, Node(Product(4, "hello"), 1, Leaf, Leaf), Node(Product(6, "hello"), 2, Leaf, Node(Product(7, "map"), 1, Leaf, Leaf))), "hello") == [4, 6]
    ensures SearchByName(Node(Product(5, "tea"), 3, Node(Product(4, "hello"), 1, Leaf, Leaf), Node(Product(6, "hello"), 2, Leaf, Node(Product(7, "map"), 1, Leaf, Leaf))), "rock") == []
  {
  }

  /** 3(1(-, 2), 5(4, 6(-, 7))) */
  const T9: Tree := Node(Product(3, "sea"), 4, Node(Product(1, "bye"), 2, Leaf, Node(Product(2, "hello"), 1, Leaf, Leaf)), Node(Product(5, "tea"), 3, Node(Product(4, "hello"), 1, Leaf, Leaf), Node(Product(6, "hello"), 2, Leaf, Node(Product(7, "map"), 1, Leaf, Leaf))))

  /** Deleting id 0 empties the left-most leaf; no rotation follows. */
  lemma Remove0()
    ensures RemoveNode(T8, 0) == T9
  {
    Remove0Below1();
    NoRotation(Node(Product(3, "sea"), 4, Node(Product(1, "bye"), 2, Leaf, Node(Product(2, "hello"), 1, Leaf, Leaf)), Node(Product(5, "tea"), 3, Node(Product(4, "hello"), 1, Leaf, Leaf), Node(Product(6, "hello"), 2, Leaf, Node(Product(7, "map"), 1, Leaf, Leaf)))), 4);
  }

  /** Deleting id 0 from 1(0, 2) gives 1(-, 2). */
  lemma Remove0Below1()
    ensures RemoveNode(Node(Product(1, "bye"), 2, Node(Product(0, "hello"), 1, Leaf, Leaf), Node(Product(2, "hello"), 1, Leaf, Leaf)), 0) == Node(Product(1, "bye"), 2, Leaf, Node(Product(2, "hello"), 1, Leaf, Leaf))
  {
    assert RemoveNode(Node(Product(0, "hello"), 1, Leaf, Leaf), 0) == Leaf;
    NoRotation(Node(Product(1, "bye"), 2, Leaf, Node(Product(2, "hello"), 1, Leaf, Leaf)), 2);
  }

  /** The first deletion of main.cpp, reported as the corrected removal
      reports it: id 9 is not in the empty tree. */
  lemma EmptyDeletion()
    ensures FindNode(Leaf, 9).Leaf? && RemoveNode(Leaf, 9) == Leaf
  {
  }

  /** The last deletions of main.cpp, reported as the corrected removal
      reports them: id 0 is stored, and once it is gone id 32 is still not. */
  lemma Deletions()
    ensures FindNode(T8, 0).Node? && RemoveNode(T8, 0) == T9
    ensures FindNode(T9, 32).Leaf?
  {
    Remove0();
  }
}
