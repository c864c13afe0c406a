/** Skeletons of binary trees and positions inside them.

    A `Shape<N>` records which node (of any type `N`) stands at each position of a
    binary tree; a `Context<N>` is the zipper path from an empty or occupied slot up to
    the top of such a skeleton. Nothing here reads the heap: these values are the
    abstract side against which the pointer-linked tree of module BinaryTrees is
    specified. */
module Shapes {

  datatype Shape<N> = Nil | Node(left: Shape<N>, node: N, right: Shape<N>)

  /** The path from a slot to the top: at each step the node above the slot, the side
      the slot hangs from, and the sibling subtree on the other side. */
  datatype Context<N> =
    | Top
    | LeftOf(node: N, right: Shape<N>, above: Context<N>)
    | RightOf(left: Shape<N>, node: N, above: Context<N>)

  ghost function Nodes<N>(s: Shape<N>): set<N>
  {
    match s
    case Nil => {}
    case Node(l, n, r) => Nodes(l) + {n} + Nodes(r)
  }

  /** No node stands at two positions of `s`: the skeleton really is a tree. */
  ghost predicate Distinct<N>(s: Shape<N>)
  {
    match s
    case Nil => true
    case Node(l, n, r) =>
      Distinct(l) && Distinct(r) && n !in Nodes(l) && n !in Nodes(r) && Nodes(l) !! Nodes(r)
  }

  /** The nodes of `s` in left-to-right (in-order) order. */
  ghost function InOrder<N>(s: Shape<N>): seq<N>
  {
    match s
    case Nil => []
    case Node(l, n, r) => InOrder(l) + [n] + InOrder(r)
  }

  /** The nodes on the path of `c` and in the sibling subtrees hanging from it. */
  ghost function CtxNodes<N>(c: Context<N>): set<N>
  {
    match c
    case Top => {}
    case LeftOf(n, r, a) => {n} + Nodes(r) + CtxNodes(a)
    case RightOf(l, n, a) => Nodes(l) + {n} + CtxNodes(a)
  }

  /** No node stands at two positions of the context `c`. */
  ghost predicate CtxDistinct<N>(c: Context<N>)
  {
    match c
    case Top => true
    case LeftOf(n, r, a) =>
      Distinct(r) && n !in Nodes(r) && CtxDistinct(a) && ({n} + Nodes(r)) !! CtxNodes(a)
    case RightOf(l, n, a) =>
      Distinct(l) && n !in Nodes(l) && CtxDistinct(a) && (Nodes(l) + {n}) !! CtxNodes(a)
  }

  /** The subtree one level up: `s` hung below the innermost node of `c`. */
  ghost function Enclose<N>(c: Context<N>, s: Shape<N>): Shape<N>
    requires !c.Top?
  {
    match c
    case LeftOf(n, r, _) => Node(s, n, r)
    case RightOf(l, n, _) => Node(l, n, s)
  }

  /** The whole skeleton obtained by putting `s` into the slot described by `c`. */
  ghost function Plug<N>(c: Context<N>, s: Shape<N>): Shape<N>
  {
    match c
    case Top => s
    case LeftOf(n, r, a) => Plug(a, Node(s, n, r))
    case RightOf(l, n, a) => Plug(a, Node(l, n, s))
  }

  /** y(x(a, b), c) becomes x(a, y(b, c)). */
  ghost function RotatedRight<N>(s: Shape<N>): Shape<N>
    requires s.Node? && s.left.Node?
  {
    Node(s.left.left, s.left.node, Node(s.left.right, s.node, s.right))
  }

  /** x(a, y(b, c)) becomes y(x(a, b), c). */
  ghost function RotatedLeft<N>(s: Shape<N>): Shape<N>
    requires s.Node? && s.right.Node?
  {
    Node(Node(s.left, s.node, s.right.left), s.right.node, s.right.right)
  }

  /** The empty slot reached from slot `c`, holding `s`, by following left links. */
  ghost function LeftMostHole<N>(c: Context<N>, s: Shape<N>): Context<N>
    decreases s
  {
    match s
    case Nil => c
    case Node(l, n, r) => LeftMostHole(LeftOf(n, r, c), l)
  }

  /** The empty slot reached from slot `c`, holding `s`, by following right links. */
  ghost function RightMostHole<N>(c: Context<N>, s: Shape<N>): Context<N>
    decreases s
  {
    match s
    case Nil => c
    case Node(l, n, r) => RightMostHole(RightOf(l, n, c), r)
  }

  // ---------------------------------------------------------------------------
  // Plugging a subtree into a context
  // ---------------------------------------------------------------------------

  lemma {:induction false} PlugNodes<N>(c: Context<N>, s: Shape<N>)
    ensures Nodes(Plug(c, s)) == CtxNodes(c) + Nodes(s)
  {
    match c
    case Top =>
    case LeftOf(n, r, a) => PlugNodes(a, Node(s, n, r));
    case RightOf(l, n, a) => PlugNodes(a, Node(l, n, s));
  }

  /** The whole tree is a tree exactly when the context and the subtree are, and share no node. */
  lemma {:induction false} PlugDistinct<N>(c: Context<N>, s: Shape<N>)
    ensures Distinct(Plug(c, s)) <==> CtxDistinct(c) && Distinct(s) && CtxNodes(c) !! Nodes(s)
  {
    match c
    case Top =>
    case LeftOf(n, r, a) => PlugDistinct(a, Node(s, n, r));
    case RightOf(l, n, a) => PlugDistinct(a, Node(l, n, s));
  }

  /** Replacing a subtree by one with the same in-order sequence keeps the whole in-order sequence. */
  lemma {:induction false} PlugKeepsInOrder<N>(c: Context<N>, s: Shape<N>, s': Shape<N>)
    requires InOrder(s) == InOrder(s')
    ensures InOrder(Plug(c, s)) == InOrder(Plug(c, s'))
  {
    match c
    case Top =>
    case LeftOf(n, r, a) => PlugKeepsInOrder(a, Node(s, n, r), Node(s', n, r));
    case RightOf(l, n, a) => PlugKeepsInOrder(a, Node(l, n, s), Node(l, n, s'));
  }

  // ---------------------------------------------------------------------------
  // Rotations
  // ---------------------------------------------------------------------------

  /** A right rotation moves no node in or out, keeps the tree a tree, and keeps the
      in-order sequence of the subtree and of every tree it is plugged into. */
  lemma RotateRightKeepsInOrder<N>(c: Context<N>, s: Shape<N>)
    requires s.Node? && s.left.Node?
    ensures Nodes(RotatedRight(s)) == Nodes(s)
    ensures Distinct(RotatedRight(s)) <==> Distinct(s)
    ensures InOrder(RotatedRight(s)) == InOrder(s)
    ensures InOrder(Plug(c, RotatedRight(s))) == InOrder(Plug(c, s))
  {
    PlugKeepsInOrder(c, RotatedRight(s), s);
  }

  lemma RotateLeftKeepsInOrder<N>(c: Context<N>, s: Shape<N>)
    requires s.Node? && s.right.Node?
    ensures Nodes(RotatedLeft(s)) == Nodes(s)
    ensures Distinct(RotatedLeft(s)) <==> Distinct(s)
    ensures InOrder(RotatedLeft(s)) == InOrder(s)
    ensures InOrder(Plug(c, RotatedLeft(s))) == InOrder(Plug(c, s))
  {
    PlugKeepsInOrder(c, RotatedLeft(s), s);
  }

  /** Each rotation undoes the other. */
  lemma RotationsAreInverse<N>(s: Shape<N>)
    ensures s.Node? && s.left.Node? ==> RotatedRight(s).right.Node? && RotatedLeft(RotatedRight(s)) == s
    ensures s.Node? && s.right.Node? ==> RotatedLeft(s).left.Node? && RotatedRight(RotatedLeft(s)) == s
  {
  }

  // ---------------------------------------------------------------------------
  // Left-most and right-most descents
  // ---------------------------------------------------------------------------

  /** The left-most slot is an empty slot of the same tree. */
  lemma {:induction false} LeftMostHoleInSameTree<N>(c: Context<N>, s: Shape<N>)
    ensures Plug(LeftMostHole(c, s), Nil) == Plug(c, s)
    decreases s
  {
    match s
    case Nil =>
    case Node(l, n, r) => LeftMostHoleInSameTree(LeftOf(n, r, c), l);
  }

  lemma {:induction false} RightMostHoleInSameTree<N>(c: Context<N>, s: Shape<N>)
    ensures Plug(RightMostHole(c, s), Nil) == Plug(c, s)
    decreases s
  {
    match s
    case Nil =>
    case Node(l, n, r) => RightMostHoleInSameTree(RightOf(l, n, c), r);
  }

  /** Below a non-empty subtree, the left-most slot is the left slot of the subtree's
      in-order first node. */
  lemma {:induction false} LeftMostHoleBelowFirst<N>(c: Context<N>, s: Shape<N>)
    requires s.Node?
    ensures LeftMostHole(c, s).LeftOf? && LeftMostHole(c, s).node == InOrder(s)[0]
    decreases s
  {
    var Node(l, n, r) := s;
    if l.Node? {
      LeftMostHoleBelowFirst(LeftOf(n, r, c), l);
    }
  }

  /** Below a non-empty subtree, the right-most slot is the right slot of the subtree's
      in-order last node. */
  lemma {:induction false} RightMostHoleBelowLast<N>(c: Context<N>, s: Shape<N>)
    requires s.Node?
    ensures RightMostHole(c, s).RightOf? && RightMostHole(c, s).node == InOrder(s)[|InOrder(s)| - 1]
    decreases s
  {
    var Node(l, n, r) := s;
    if r.Node? {
      RightMostHoleBelowLast(RightOf(l, n, c), r);
    }
  }
}
