/** Uses of the iterator as the package's own test and documentation describe them: the
    three-node tree built by the test, and the round trips that the comments promise
    (a rotation undone by the opposite one, a cut subtree pasted back). */
module BinaryTreeScenarios {
  import opened Shapes
  import opened BinaryTrees

  /** The test's scenario: a new tree is empty; once an item is inserted at the root the
      iterator is on a node that is both the root and a leaf; once items are inserted to
      its left and to its right, that node has both children, holding those items. */
  method BuildThreeNodes<T>(top: T, leftItem: T, rightItem: T)
    returns (wasEmpty: bool, rootAndLeaf: bool, bothChildren: bool, seen: seq<T>)
    ensures wasEmpty && rootAndLeaf && bothChildren
    ensures seen == [leftItem, top, rightItem]
  {
    var tree := new BinaryTree<T>();
    wasEmpty := tree.IsEmpty();

    var itr := tree.Root();
    itr.Insert(top, Top, Nil);
    ghost var y := itr.down;
    rootAndLeaf := itr.IsRoot() && itr.IsLeaf();

    ghost var x := InsertLeftOfRoot(itr, leftItem, Node(Nil, y, Nil));
    ghost var z := InsertRightOfRoot(itr, rightItem, Node(Node(Nil, x, Nil), y, Nil));
    ghost var s := Node(Node(Nil, x, Nil), y, Node(Nil, z, Nil));
    assert x.item == leftItem && y.item == top;
    bothChildren := itr.HasRight() && itr.HasLeft();
    seen := ReadInOrder(itr, s);
  }

  /** The items of a three-node tree, read from the left-most position, the root and the
      right-most position. */
  method ReadInOrder<T>(itr: Iterator<T>, ghost s: Layout<T>) returns (seen: seq<T>)
    requires itr.At(Top, s) && s.Node? && s.left.Node? && s.right.Node?
    requires s.left.left.Nil? && s.left.right.Nil? && s.right.left.Nil? && s.right.right.Nil?
    ensures seen == [s.left.node.item, s.node.item, s.right.node.item] == Items(s)
  {
    ThreeNodes(s);
    var first := itr.LeftMost(Top, s);
    var last := itr.RightMost(Top, s);
    seen := [first.up.item, itr.Consult(), last.up.item];
  }

  /** `itr.Left().Insert(item)`, for an iterator above a root whose left slot is empty. */
  method InsertLeftOfRoot<T>(itr: Iterator<T>, item: T, ghost s: Layout<T>) returns (ghost x: BinaryNode<T>)
    requires itr.At(Top, s) && s.Node? && s.left.Nil?
    modifies s.node`left
    ensures fresh(x) && x.item == item
    ensures itr.At(Top, Node(Node(Nil, x, Nil), s.node, s.right))
  {
    var l := itr.Left(Top, s);
    l.Insert(item, LeftOf(s.node, s.right, Top), Nil);
    x := l.down;
    PlacedAscend(itr.whole, LeftOf(s.node, s.right, Top), Node(Nil, x, Nil));
  }

  /** `itr.Right().Insert(item)`, for an iterator above a root whose right slot is empty. */
  method InsertRightOfRoot<T>(itr: Iterator<T>, item: T, ghost s: Layout<T>) returns (ghost z: BinaryNode<T>)
    requires itr.At(Top, s) && s.Node? && s.right.Nil?
    modifies s.node`right
    ensures fresh(z) && z.item == item
    ensures itr.At(Top, Node(s.left, s.node, Node(Nil, z, Nil)))
  {
    var r := itr.Right(Top, s);
    r.Insert(item, RightOf(s.left, s.node, Top), Nil);
    z := r.down;
    PlacedAscend(itr.whole, RightOf(s.left, s.node, Top), Node(Nil, z, Nil));
  }

  /** A root with two leaf children, read in order. */
  lemma ThreeNodes<T>(s: Layout<T>)
    requires s.Node? && s.left.Node? && s.right.Node?
    requires s.left.left.Nil? && s.left.right.Nil? && s.right.left.Nil? && s.right.right.Nil?
    ensures InOrder(s) == [s.left.node, s.node, s.right.node]
    ensures Items(s) == [s.left.node.item, s.node.item, s.right.node.item]
  {
    assert InOrder(s.left) == [s.left.node];
    assert InOrder(s.right) == [s.right.node];
    assert Items(s.left) == [s.left.node.item];
    assert Items(s.right) == [s.right.node.item];
  }

  /** RotateLeft is the reverse operation of RotateRight: applied one after the other at
      the same position, they give back the original links. */
  method RotateRightThenLeft<T>(it: Iterator<T>, ghost c: Path<T>, ghost s: Layout<T>)
    requires it.At(c, s) && it.HasLeft()
    modifies it`down, it.RootSlot()`root, it.LeftSlot()`left, it.RightSlot()`right
    modifies {it.down, it.down.left}`parent, Opt(it.down.left.right)`parent
    modifies it.down`left, it.down.left`right
    ensures it.down == old(it.down) && it.At(c, s)
    ensures Items(s) == old(Items(s))
  {
    ghost var b := it.down.left.right;
    assert Linked(s, it.up) && Linked(s.left, it.down) && b == RootOf(s.left.right);
    it.RotateRight(c, s);
    assert Linked(RotatedRight(s), it.up) && Linked(RotatedRight(s).right, it.down);
    assert it.down.right.left == b;
    RotationsAreInverse(s);
    it.RotateLeft(c, RotatedRight(s));
  }

  /** Cutting the subtree at a position and pasting it back gives back the original tree,
      and leaves the tree that carried the subtree in between empty. */
  method CutThenPaste<T>(it: Iterator<T>, ghost c: Path<T>, ghost s: Layout<T>)
    returns (r: Outcome, carrier: BinaryTree<T>)
    requires it.At(c, s)
    modifies it`down, it.RootSlot()`root, it.LeftSlot()`left, it.RightSlot()`right
    modifies Opt(it.down)`parent
    ensures r == Pass && carrier.IsEmpty()
    ensures it.down == old(it.down) && it.At(c, s)
  {
    carrier := it.Cut(c, s);
    r := it.Paste(carrier, c, Nil, s);
  }

  /** Going down to the left and back up returns to the same position. */
  method LeftThenUp<T>(it: Iterator<T>, ghost c: Path<T>, ghost s: Layout<T>) returns (r: Result<Iterator<T>>)
    requires it.At(c, s) && !it.IsBottom()
    ensures r.Success? && r.value.whole == it.whole && r.value.down == it.down && r.value.up == it.up
    ensures r.value.At(c, s)
  {
    var l := it.Left(c, s);
    r := l.Up(LeftOf(s.node, s.right, c), s.left);
  }
}
