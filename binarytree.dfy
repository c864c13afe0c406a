/** The pointer-linked binary tree and its iterator (a zipper-style cursor).

    Nodes carry `left`, `right` and `parent` links and a payload; a tree holds only its
    root; an iterator records its tree (`whole`), the node it points at (`down`, null
    at an empty slot), the node above it (`up`, null above the root) and on which
    side of `up` it hangs (`isLeftArc`). Navigation allocates new iterators;
    Update, Insert, Cut, Paste and the rotations relink nodes in place.

    Every operation is specified twice over: by the links it reads and writes, and
    against a skeleton `Shape` of the tree and a `Context` saying where the iterator
    is (the ghost parameters `c` and `s` of `At`). */
module BinaryTrees {
  import opened Shapes

  class BinaryNode<T> {
    var left: BinaryNode?<T>
    var right: BinaryNode?<T>
    var parent: BinaryNode?<T>
    var item: T

    /** A leaf holding `item`, hung below `parent`. */
    constructor (item: T, parent: BinaryNode?<T>)
      ensures this.item == item && this.parent == parent && left == null && right == null
    {
      this.item := item;
      this.parent := parent;
      left := null;
      right := null;
    }
  }

  /** Skeletons and paths whose positions hold nodes. */
  type Layout<T> = Shape<BinaryNode<T>>
  type Path<T> = Context<BinaryNode<T>>

  datatype Error = RootError | InvalidPosition | CycleError
  datatype Result<R> = Success(value: R) | Failure(error: Error)
  datatype Outcome = Pass | Fail(error: Error)

  function RootOf<T>(s: Layout<T>): BinaryNode?<T>
  {
    if s.Nil? then null else s.node
  }

  /** The node right above the slot of `c` (null at the top). */
  function Above<T>(c: Path<T>): BinaryNode?<T>
  {
    if c.Top? then null else c.node
  }

  function Opt<T>(n: BinaryNode?<T>): set<BinaryNode<T>>
  {
    if n == null then {} else {n}
  }

  ghost function Footprint<T>(c: Path<T>, s: Layout<T>): set<BinaryNode<T>>
  {
    CtxNodes(c) + Nodes(s)
  }

  /** The links of the nodes of `s` follow `s`, and its top node's parent link is `p`. */
  ghost predicate Linked<T>(s: Layout<T>, p: BinaryNode?<T>)
    reads Nodes(s)`left, Nodes(s)`right, Nodes(s)`parent
  {
    match s
    case Nil => true
    case Node(l, n, r) =>
      n.parent == p && n.left == RootOf(l) && n.right == RootOf(r) && Linked(l, n) && Linked(r, n)
  }

  /** In tree `w`, the slot described by `c` holds `child`, and the path and the sibling
      subtrees along it are linked as `c` says. */
  ghost predicate Hangs<T>(w: BinaryTree<T>, c: Path<T>, child: BinaryNode?<T>)
    reads w`root, CtxNodes(c)`left, CtxNodes(c)`right, CtxNodes(c)`parent
  {
    match c
    case Top => w.root == child
    case LeftOf(n, r, a) =>
      n.left == child && n.right == RootOf(r) && n.parent == Above(a) && Linked(r, n) && Hangs(w, a, n)
    case RightOf(l, n, a) =>
      n.left == RootOf(l) && n.right == child && n.parent == Above(a) && Linked(l, n) && Hangs(w, a, n)
  }

  /** Subtree `s` sits in the slot `c` of tree `w`, and the whole is a well-formed tree:
      every child link agrees with the child's parent link, and no node occurs twice. */
  ghost predicate Placed<T>(w: BinaryTree<T>, c: Path<T>, s: Layout<T>)
    reads w`root, Footprint(c, s)`left, Footprint(c, s)`right, Footprint(c, s)`parent
  {
    Hangs(w, c, RootOf(s)) && Linked(s, Above(c)) &&
    CtxDistinct(c) && Distinct(s) && CtxNodes(c) !! Nodes(s)
  }

  /** Tree `w` is well formed and has skeleton `s`. */
  ghost predicate Represents<T>(w: BinaryTree<T>, s: Layout<T>)
    reads w`root, Nodes(s)`left, Nodes(s)`right, Nodes(s)`parent
  {
    Placed(w, Top, s)
  }

  /** The payloads of `s`, in order. */
  ghost function Items<T>(s: Layout<T>): seq<T>
    reads Nodes(s)`item
  {
    match s
    case Nil => []
    case Node(l, n, r) => Items(l) + [n.item] + Items(r)
  }

  /** Items reads only the payload fields, so it is kept when those are. */
  twostate lemma ItemsKept<T>(s: Layout<T>)
    requires old(allocated(Nodes(s))) && unchanged(Nodes(s)`item)
    ensures Items(s) == old(Items(s))
  {
  }

  /** Nodes named by a skeleton or a path already exist, so a newly allocated object
      is none of them. */
  lemma {:induction false} NodesAllocated<T>(s: Layout<T>)
    ensures forall n :: n in Nodes(s) ==> allocated(n)
  {
    match s
    case Nil =>
    case Node(l, _, r) => NodesAllocated(l); NodesAllocated(r);
  }

  lemma {:induction false} CtxAllocated<T>(c: Path<T>)
    ensures forall n :: n in CtxNodes(c) ==> allocated(n)
  {
    match c
    case Top =>
    case LeftOf(_, r, a) => NodesAllocated(r); CtxAllocated(a);
    case RightOf(l, _, a) => NodesAllocated(l); CtxAllocated(a);
  }

  lemma FootprintAllocated<T>(c: Path<T>, s: Layout<T>)
    ensures forall n :: n in CtxNodes(c) ==> allocated(n)
    ensures forall n :: n in Nodes(s) ==> allocated(n)
    ensures forall n :: n in Footprint(c, s) ==> allocated(n)
  {
    CtxAllocated(c);
    NodesAllocated(s);
  }

  /** The slot one step down, at the left or the right child of the top of `s`, is
      consistently placed too. */
  lemma PlacedDescend<T>(w: BinaryTree<T>, c: Path<T>, s: Layout<T>)
    requires Placed(w, c, s) && s.Node?
    ensures Placed(w, LeftOf(s.node, s.right, c), s.left)
    ensures Placed(w, RightOf(s.left, s.node, c), s.right)
  {
  }

  /** So is the slot one step up, holding the enclosing subtree. */
  lemma PlacedAscend<T>(w: BinaryTree<T>, c: Path<T>, s: Layout<T>)
    requires Placed(w, c, s) && !c.Top?
    ensures Placed(w, c.above, Enclose(c, s))
    ensures c.above.LeftOf? ==> c.above.node.left == c.node
    ensures c.above.RightOf? ==> c.above.node.left != c.node
  {
    if c.above.RightOf? {
      var RightOf(l, m, _) := c.above;
      assert Hangs(w, c.above, c.node);
      assert c.node in CtxNodes(c) && c.node !in Nodes(l);
      assert l.Node? ==> l.node in Nodes(l);
    }
  }

  /** Regrouping the payloads around two nodes. */
  lemma Regroup<T>(a: seq<T>, x: T, b: seq<T>, y: T, c: seq<T>)
    ensures a + [x] + b + [y] + c == a + [x] + (b + [y] + c)
  {
  }

  /** Rotations move nodes, not payloads: the in-order payloads stay the same. */
  lemma RotatedRightItems<T>(s: Layout<T>)
    requires s.Node? && s.left.Node?
    ensures Items(RotatedRight(s)) == Items(s)
  {
    var Node(Node(a, x, b), y, c) := s;
    var ia, ib, ic := Items(a), Items(b), Items(c);
    assert Items(s.left) == ia + [x.item] + ib;
    assert Items(s) == ia + [x.item] + ib + [y.item] + ic;
    assert Items(RotatedRight(s).right) == ib + [y.item] + ic;
    assert Items(RotatedRight(s)) == ia + [x.item] + (ib + [y.item] + ic);
    Regroup(ia, x.item, ib, y.item, ic);
  }

  lemma RotatedLeftItems<T>(s: Layout<T>)
    requires s.Node? && s.right.Node?
    ensures Items(RotatedLeft(s)) == Items(s)
  {
    var Node(a, x, Node(b, y, c)) := s;
    var ia, ib, ic := Items(a), Items(b), Items(c);
    assert Items(s.right) == ib + [y.item] + ic;
    assert Items(s) == ia + [x.item] + (ib + [y.item] + ic);
    assert Items(RotatedLeft(s).left) == ia + [x.item] + ib;
    assert Items(RotatedLeft(s)) == ia + [x.item] + ib + [y.item] + ic;
    Regroup(ia, x.item, ib, y.item, ic);
  }

  /** Replacing a subtree by one with the same payloads in order keeps the payloads of
      every tree it is plugged into. */
  lemma {:induction false} PlugKeepsItems<T>(c: Path<T>, s: Layout<T>, s': Layout<T>)
    requires Items(s) == Items(s')
    ensures Items(Plug(c, s)) == Items(Plug(c, s'))
    decreases c
  {
    match c
    case Top =>
    case LeftOf(n, r, a) => PlugKeepsItems(a, Node(s, n, r), Node(s', n, r));
    case RightOf(l, n, a) => PlugKeepsItems(a, Node(l, n, s), Node(l, n, s'));
  }

  /** A slot is consistently placed in `w` exactly when `w` is the well-formed tree
      obtained by plugging the subtree into the slot's context. */
  lemma {:induction false} PlacedInWhole<T>(w: BinaryTree<T>, c: Path<T>, s: Layout<T>)
    ensures Placed(w, c, s) <==> Represents(w, Plug(c, s))
    decreases c
  {
    match c
    case Top =>
    case LeftOf(n, r, a) =>
      PlacedInWhole(w, a, Node(s, n, r));
      if Placed(w, c, s) {
        PlacedAscend(w, c, s);
      } else if Placed(w, a, Node(s, n, r)) {
        PlacedDescend(w, a, Node(s, n, r));
      }
    case RightOf(l, n, a) =>
      PlacedInWhole(w, a, Node(l, n, s));
      if Placed(w, c, s) {
        PlacedAscend(w, c, s);
      } else if Placed(w, a, Node(l, n, s)) {
        PlacedDescend(w, a, Node(l, n, s));
      }
  }

  class BinaryTree<T> {
    var root: BinaryNode?<T>

    /** `BinaryTree{}`: the empty tree. */
    constructor ()
      ensures root == null && Represents(this, Nil)
    {
      root := null;
    }

    predicate IsEmpty()
      reads this
    {
      root == null
    }

    /** A well-formed tree is empty exactly when its skeleton is. */
    lemma EmptyIffNil(s: Layout<T>)
      requires Represents(this, s)
      ensures IsEmpty() <==> s.Nil?
    {
    }

    /** A new iterator above the root. */
    method Root() returns (it: Iterator<T>)
      ensures fresh(it) && it.whole == this && it.down == root && it.up == null && !it.isLeftArc
      ensures forall s :: Represents(this, s) ==> it.At(Top, s)
    {
      it := new Iterator(this);
    }

    // The rotations edit the subtree they cut out through an iterator standing above
    // its root (`y := i.Cut().Root()`); each helper below is one such chain of calls.

    /** `Root().Left().Cut()`: the left subtree of the root moves to a new tree. */
    method CutLeft(ghost s: Layout<T>) returns (t: BinaryTree<T>)
      requires Represents(this, s) && s.Node?
      modifies s.node`left, Opt(RootOf(s.left))`parent
      ensures fresh(t)
      ensures Represents(this, Node(Nil, s.node, s.right)) && Represents(t, s.left)
    {
      FootprintAllocated(Top, s);
      var it := Root();
      it := it.Left(Top, s);
      t := it.Cut(LeftOf(s.node, s.right, Top), s.left);
      PlacedInWhole(this, LeftOf(s.node, s.right, Top), Nil);
    }

    /** `Root().Right().Cut()`: the right subtree of the root moves to a new tree. */
    method CutRight(ghost s: Layout<T>) returns (t: BinaryTree<T>)
      requires Represents(this, s) && s.Node?
      modifies s.node`right, Opt(RootOf(s.right))`parent
      ensures fresh(t)
      ensures Represents(this, Node(s.left, s.node, Nil)) && Represents(t, s.right)
    {
      FootprintAllocated(Top, s);
      var it := Root();
      it := it.Right(Top, s);
      t := it.Cut(RightOf(s.left, s.node, Top), s.right);
      PlacedInWhole(this, RightOf(s.left, s.node, Top), Nil);
    }

    /** `Root().Left().Right().Cut()`: the inner grandchild subtree on the left moves to a
        new tree. */
    method CutLeftRight(ghost s: Layout<T>) returns (t: BinaryTree<T>)
      requires Represents(this, s) && s.Node? && s.left.Node?
      modifies s.left.node`right, Opt(RootOf(s.left.right))`parent
      ensures fresh(t)
      ensures Represents(this, Node(Node(s.left.left, s.left.node, Nil), s.node, s.right))
      ensures Represents(t, s.left.right)
    {
      FootprintAllocated(Top, s);
      ghost var Node(Node(sa, nx, sb), ny, sc) := s;
      ghost var hole := RightOf(sa, nx, LeftOf(ny, sc, Top));
      var it := Root();
      it := it.Left(Top, s);
      it := it.Right(LeftOf(ny, sc, Top), s.left);
      t := it.Cut(hole, sb);
      PlacedInWhole(this, hole, Nil);
      assert Plug(hole, Nil) == Plug(LeftOf(ny, sc, Top), Node(sa, nx, Nil)) == Node(Node(sa, nx, Nil), ny, sc);
    }

    /** `Root().Right().Left().Cut()`: the inner grandchild subtree on the right moves to
        a new tree. */
    method CutRightLeft(ghost s: Layout<T>) returns (t: BinaryTree<T>)
      requires Represents(this, s) && s.Node? && s.right.Node?
      modifies s.right.node`left, Opt(RootOf(s.right.left))`parent
      ensures fresh(t)
      ensures Represents(this, Node(s.left, s.node, Node(Nil, s.right.node, s.right.right)))
      ensures Represents(t, s.right.left)
    {
      FootprintAllocated(Top, s);
      ghost var Node(sa, nx, Node(sb, ny, sc)) := s;
      ghost var hole := LeftOf(ny, sc, RightOf(sa, nx, Top));
      var it := Root();
      it := it.Right(Top, s);
      it := it.Left(RightOf(sa, nx, Top), s.right);
      t := it.Cut(hole, sb);
      PlacedInWhole(this, hole, Nil);
      assert Plug(hole, Nil) == Plug(RightOf(sa, nx, Top), Node(Nil, ny, sc)) == Node(sa, nx, Node(Nil, ny, sc));
    }

    /** `Root().Left().Paste(t)`: tree `t` moves into the empty left slot of the root. */
    method PasteLeft(t: BinaryTree<T>, ghost s: Layout<T>, ghost u: Layout<T>)
      requires Represents(this, s) && s.Node? && s.left.Nil?
      requires Represents(t, u) && t != this && Nodes(u) !! Nodes(s)
      modifies s.node`left, t`root, Opt(RootOf(u))`parent
      ensures t.root == null
      ensures Represents(this, Node(u, s.node, s.right))
    {
      FootprintAllocated(Top, s);
      NodesAllocated(u);
      var it := Root();
      it := it.Left(Top, s);
      var _ := it.Paste(t, LeftOf(s.node, s.right, Top), Nil, u);
      PlacedInWhole(this, LeftOf(s.node, s.right, Top), u);
    }

    /** `Root().Right().Paste(t)`: tree `t` moves into the empty right slot of the root. */
    method PasteRight(t: BinaryTree<T>, ghost s: Layout<T>, ghost u: Layout<T>)
      requires Represents(this, s) && s.Node? && s.right.Nil?
      requires Represents(t, u) && t != this && Nodes(u) !! Nodes(s)
      modifies s.node`right, t`root, Opt(RootOf(u))`parent
      ensures t.root == null
      ensures Represents(this, Node(s.left, s.node, u))
    {
      FootprintAllocated(Top, s);
      NodesAllocated(u);
      var it := Root();
      it := it.Right(Top, s);
      var _ := it.Paste(t, RightOf(s.left, s.node, Top), Nil, u);
      PlacedInWhole(this, RightOf(s.left, s.node, Top), u);
    }

    /** The middle of RotateRight, on the subtree y(x(a, b), c) cut out into this tree:
        `b := y.Left().Right().Cut()`, `x := y.Left().Cut().Root()`, `y.Left().Paste(b)`
        and `x.Right().Paste(y.whole)`. The result holds x(a, y(b, c)); this tree is left
        empty. */
    method RotateRightDetached(ghost s: Layout<T>) returns (tx: BinaryTree<T>)
      requires Represents(this, s) && s.Node? && s.left.Node?
      modifies this`root, s.node`left, s.node`parent, s.left.node`right, s.left.node`parent
      modifies Opt(RootOf(s.left.right))`parent
      ensures fresh(tx) && root == null
      ensures Represents(tx, RotatedRight(s))
    {
      ghost var Node(Node(sa, nx, sb), ny, sc) := s;
      NodesAllocated(sa);
      NodesAllocated(sb);
      NodesAllocated(sc);
      assert Distinct(s) && Distinct(s.left) && Nodes(s.left) == Nodes(sa) + {nx} + Nodes(sb);
      var tb := CutLeftRight(s);
      tx := CutLeft(Node(Node(sa, nx, Nil), ny, sc));
      PasteLeft(tb, Node(Nil, ny, sc), sb);
      tx.PasteRight(this, Node(sa, nx, Nil), Node(sb, ny, sc));
    }

    /** The middle of RotateLeft, on the subtree x(a, y(b, c)) cut out into this tree:
        `b := x.Right().Left().Cut()`, `y := x.Right().Cut().Root()`, `x.Right().Paste(b)`
        and `y.Left().Paste(x.whole)`. The result holds y(x(a, b), c); this tree is left
        empty. */
    method RotateLeftDetached(ghost s: Layout<T>) returns (ty: BinaryTree<T>)
      requires Represents(this, s) && s.Node? && s.right.Node?
      modifies this`root, s.node`right, s.node`parent, s.right.node`left, s.right.node`parent
      modifies Opt(RootOf(s.right.left))`parent
      ensures fresh(ty) && root == null
      ensures Represents(ty, RotatedLeft(s))
    {
      ghost var Node(sa, nx, Node(sb, ny, sc)) := s;
      NodesAllocated(sa);
      NodesAllocated(sb);
      NodesAllocated(sc);
      assert Distinct(s) && Distinct(s.right) && Nodes(s.right) == Nodes(sb) + {ny} + Nodes(sc);
      var tb := CutRightLeft(s);
      ty := CutRight(Node(sa, nx, Node(Nil, ny, sc)));
      PasteRight(tb, Node(sa, nx, Nil), sb);
      ty.PasteLeft(this, Node(Nil, ny, sc), Node(sa, nx, sb));
    }
  }

  class Iterator<T> {
    var whole: BinaryTree<T>
    var down: BinaryNode?<T>
    var up: BinaryNode?<T>
    var isLeftArc: bool

    /** NewIterator: positioned above the root of `t`. */
    constructor (t: BinaryTree<T>)
      ensures whole == t && down == t.root && up == null && !isLeftArc
    {
      whole := t;
      down := t.root;
      up := null;
      isLeftArc := false;
    }

    /** The iterator stands at slot `c` of its tree, above subtree `s`, and the tree is
        well formed. */
    ghost predicate At(c: Path<T>, s: Layout<T>)
      reads this, whole`root, Footprint(c, s)`left, Footprint(c, s)`right, Footprint(c, s)`parent
    {
      down == RootOf(s) && up == Above(c) && (c.Top? || isLeftArc == c.LeftOf?) && Placed(whole, c, s)
    }

    /** The location that links the slot to the tree: `whole.root`, `up.left` or `up.right`. */
    function RootSlot(): set<BinaryTree<T>>
      reads this
    {
      if up == null then {whole} else {}
    }

    function LeftSlot(): set<BinaryNode<T>>
      reads this
    {
      if up != null && isLeftArc then {up} else {}
    }

    function RightSlot(): set<BinaryNode<T>>
      reads this
    {
      if up != null && !isLeftArc then {up} else {}
    }

    // -------------------------------------------------------------------------
    // Queries
    // -------------------------------------------------------------------------

    predicate IsRoot()
      reads this
    {
      up == null
    }

    predicate IsBottom()
      reads this
    {
      down == null
    }

    predicate HasLeft()
      reads this, down
    {
      !IsBottom() && down.left != null
    }

    predicate HasRight()
      reads this, down
    {
      !IsBottom() && down.right != null
    }

    predicate IsLeaf()
      reads this, down
    {
      !IsBottom() && !HasRight() && !HasLeft()
    }

    function Consult(): T
      reads this, down
      requires !IsBottom()
    {
      down.item
    }

    predicate IsInside(t: BinaryTree<T>)
      reads this
    {
      whole == t
    }

    /** What the queries say about the position. */
    lemma QueriesAt(c: Path<T>, s: Layout<T>)
      requires At(c, s)
      ensures IsRoot() <==> c.Top?
      ensures IsBottom() <==> s.Nil?
      ensures !IsBottom() ==> Consult() == s.node.item
      ensures HasLeft() <==> s.Node? && s.left.Node?
      ensures HasRight() <==> s.Node? && s.right.Node?
      ensures IsLeaf() <==> s.Node? && s.left.Nil? && s.right.Nil?
      ensures IsLeaf() <==> !IsBottom() && down.left == null && down.right == null
    {
    }

    // -------------------------------------------------------------------------
    // Navigation
    // -------------------------------------------------------------------------

    method Up(ghost c: Path<T>, ghost s: Layout<T>) returns (r: Result<Iterator<T>>)
      requires At(c, s)
      ensures r.Failure? <==> IsRoot()
      ensures r.Failure? ==> r.error == RootError
      ensures r.Success? ==>
                var it := r.value;
                fresh(it) && it.whole == whole && it.down == up && it.up == up.parent &&
                (it.isLeftArc <==> it.up != null && it.down == it.up.left) &&
                it.At(c.above, Enclose(c, s))
    {
      FootprintAllocated(c, s);
      if IsRoot() {
        return Failure(RootError);
      }
      var itr := new Iterator(whole);
      itr.down := up;
      itr.up := up.parent;
      itr.isLeftArc := !itr.IsRoot() && itr.down == itr.up.left;
      assert At(c, s);
      PlacedAscend(whole, c, s);
      r := Success(itr);
    }

    method Right(ghost c: Path<T>, ghost s: Layout<T>) returns (itr: Iterator<T>)
      requires At(c, s) && !IsBottom()
      ensures fresh(itr) && itr.whole == whole && itr.down == down.right && itr.up == down && !itr.isLeftArc
      ensures itr.At(RightOf(s.left, s.node, c), s.right)
    {
      FootprintAllocated(c, s);
      itr := new Iterator(whole);
      itr.down := down.right;
      itr.up := down;
      itr.isLeftArc := false;
      assert At(c, s);
      PlacedDescend(whole, c, s);
    }

    method Left(ghost c: Path<T>, ghost s: Layout<T>) returns (itr: Iterator<T>)
      requires At(c, s) && !IsBottom()
      ensures fresh(itr) && itr.whole == whole && itr.down == down.left && itr.up == down && itr.isLeftArc
      ensures itr.At(LeftOf(s.node, s.right, c), s.left)
    {
      FootprintAllocated(c, s);
      itr := new Iterator(whole);
      itr.down := down.left;
      itr.up := down;
      itr.isLeftArc := true;
      assert At(c, s);
      PlacedDescend(whole, c, s);
    }

    method RightMost(ghost c: Path<T>, ghost s: Layout<T>) returns (itr: Iterator<T>)
      requires At(c, s)
      ensures fresh(itr) && itr.whole == whole && itr.IsBottom()
      ensures itr.At(RightMostHole(c, s), Nil)
      ensures s.Nil? ==> itr.up == up && itr.isLeftArc == isLeftArc
      ensures s.Node? ==> !itr.isLeftArc && itr.up == InOrder(s)[|InOrder(s)| - 1]
    {
      FootprintAllocated(c, s);
      ghost var hole, rest := c, s;
      var above, below, leftArc := up, down, isLeftArc;
      while below != null
        invariant below == RootOf(rest) && above == Above(hole) && (hole.Top? || leftArc == hole.LeftOf?)
        invariant Placed(whole, hole, rest)
        invariant RightMostHole(hole, rest) == RightMostHole(c, s)
        invariant s.Nil? ==> rest.Nil? && hole == c && above == up && leftArc == isLeftArc
        decreases rest
      {
        PlacedDescend(whole, hole, rest);
        above, below, leftArc := below, below.right, false;
        hole, rest := RightOf(rest.left, rest.node, hole), rest.right;
      }
      FootprintAllocated(hole, rest);
      ghost var placed := Placed(whole, hole, rest);
      itr := Alias();
      itr.up, itr.down, itr.isLeftArc := above, below, leftArc;
      assert Placed(whole, hole, rest) == placed;
      if s.Node? {
        RightMostHoleBelowLast(c, s);
      }
    }

    method LeftMost(ghost c: Path<T>, ghost s: Layout<T>) returns (itr: Iterator<T>)
      requires At(c, s)
      ensures fresh(itr) && itr.whole == whole && itr.IsBottom()
      ensures itr.At(LeftMostHole(c, s), Nil)
      ensures s.Nil? ==> itr.up == up && itr.isLeftArc == isLeftArc
      ensures s.Node? ==> itr.isLeftArc && itr.up == InOrder(s)[0]
    {
      FootprintAllocated(c, s);
      ghost var hole, rest := c, s;
      var above, below, leftArc := up, down, isLeftArc;
      while below != null
        invariant below == RootOf(rest) && above == Above(hole) && (hole.Top? || leftArc == hole.LeftOf?)
        invariant Placed(whole, hole, rest)
        invariant LeftMostHole(hole, rest) == LeftMostHole(c, s)
        invariant s.Nil? ==> rest.Nil? && hole == c && above == up && leftArc == isLeftArc
        decreases rest
      {
        PlacedDescend(whole, hole, rest);
        above, below, leftArc := below, below.left, true;
        hole, rest := LeftOf(rest.node, rest.right, hole), rest.left;
      }
      FootprintAllocated(hole, rest);
      ghost var placed := Placed(whole, hole, rest);
      itr := Alias();
      itr.up, itr.down, itr.isLeftArc := above, below, leftArc;
      assert Placed(whole, hole, rest) == placed;
      if s.Node? {
        LeftMostHoleBelowFirst(c, s);
      }
    }

    method Alias() returns (itr: Iterator<T>)
      ensures fresh(itr) && itr.whole == whole && itr.down == down && itr.up == up && itr.isLeftArc == isLeftArc
    {
      itr := new Iterator(whole);
      itr.down := down;
      itr.up := up;
      itr.isLeftArc := isLeftArc;
    }

    // -------------------------------------------------------------------------
    // Structural edits
    // -------------------------------------------------------------------------

    method Update(item: T, ghost c: Path<T>, ghost s: Layout<T>) returns (r: Outcome)
      requires At(c, s)
      modifies Opt(down)`item
      ensures r == if IsBottom() then Fail(InvalidPosition) else Pass
      ensures r.Pass? ==> down.item == item
      ensures At(c, s)
      ensures s.Node? ==> Items(s) == old(Items(s.left)) + [item] + old(Items(s.right))
    {
      if IsBottom() {
        return Fail(InvalidPosition);
      }
      down.item := item;
      r := Pass;
    }

    method Insert(item: T, ghost c: Path<T>, ghost s: Layout<T>)
      requires At(c, s)
      modifies this`down, RootSlot()`root, LeftSlot()`left, RightSlot()`right, Opt(down)`parent
      ensures fresh(down) && down.item == item && down.parent == up && down.left == null && down.right == null
      ensures if up == null then whole.root == down else if isLeftArc then up.left == down else up.right == down
      ensures old(down) != null ==> old(down).parent == null
      ensures At(c, Node(Nil, down, Nil))
    {
      var discarded := Cut(c, s);
      FootprintAllocated(c, Nil);
      var node := new BinaryNode(item, up);
      Link(node, c, Node(Nil, node, Nil));
    }

    method Cut(ghost c: Path<T>, ghost s: Layout<T>) returns (tree: BinaryTree<T>)
      requires At(c, s)
      modifies this`down, RootSlot()`root, LeftSlot()`left, RightSlot()`right, Opt(down)`parent
      ensures fresh(tree) && tree.root == old(down) && down == null
      ensures old(down) == null ==> unchanged(RootSlot(), LeftSlot(), RightSlot())
      ensures old(down) != null ==> old(down).parent == null
      ensures old(down) != null ==>
                if up == null then whole.root == null else if isLeftArc then up.left == null else up.right == null
      ensures At(c, Nil) && Represents(tree, s)
    {
      FootprintAllocated(c, s);
      tree := new BinaryTree();
      if IsBottom() {
        return tree;
      }
      assert At(c, s);
      Detach(tree, c, s);
    }

    /** The link updates of Cut on a non-empty subtree: the subtree's top node becomes the
        root of the empty tree `tree`, and the slot of the iterator is emptied. */
    method Detach(tree: BinaryTree<T>, ghost c: Path<T>, ghost s: Layout<T>)
      requires At(c, s) && s.Node? && tree.root == null && tree != whole
      modifies this`down, RootSlot()`root, LeftSlot()`left, RightSlot()`right, down`parent, tree`root
      ensures tree.root == old(down) && down == null && old(down).parent == null
      ensures if up == null then whole.root == null else if isLeftArc then up.left == null else up.right == null
      ensures At(c, Nil) && Represents(tree, s)
    {
      tree.root := down;
      tree.root.parent := null;
      if IsRoot() {
        whole.root := null;
      } else if isLeftArc {
        up.left := null;
      } else {
        up.right := null;
      }
      down := null;
    }

    method Paste(t: BinaryTree<T>, ghost c: Path<T>, ghost s: Layout<T>, ghost u: Layout<T>) returns (r: Outcome)
      requires At(c, s) && Represents(t, u)
      requires !IsInside(t) ==> Nodes(u) !! Footprint(c, s)
      modifies this`down, RootSlot()`root, LeftSlot()`left, RightSlot()`right, Opt(down)`parent
      modifies t`root, Opt(t.root)`parent
      ensures r == if old(IsInside(t)) then Fail(CycleError) else Pass
      ensures r.Fail? ==> unchanged(this, t) && unchanged(RootSlot(), LeftSlot(), RightSlot(), Opt(down))
      ensures r.Fail? ==> unchanged(Opt(old(t.root))) && At(c, s)
      ensures r.Pass? ==> t.root == null && down == old(t.root)
      ensures r.Pass? && down != null ==> down.parent == up
      ensures r.Pass? && old(down) != null && old(down) != down ==> old(down).parent == null
      ensures r.Pass? ==> At(c, u)
    {
      if IsInside(t) {
        return Fail(CycleError);
      }
      FootprintAllocated(c, s);
      NodesAllocated(u);
      var discarded := Cut(c, s);
      assert Represents(t, u);
      if !t.IsEmpty() {
        Graft(t, c, u);
      }
      r := Pass;
    }

    // -------------------------------------------------------------------------
    // Rotations
    // -------------------------------------------------------------------------

    /** Right rotation at the iterator: y(x(a, b), c) becomes x(a, y(b, c)). As in the
        source, the subtree is cut out, rebuilt on its own by cuts and pastes, and pasted
        back. */
    method RotateRight(ghost c: Path<T>, ghost s: Layout<T>)
      requires At(c, s) && HasLeft()
      modifies this`down, RootSlot()`root, LeftSlot()`left, RightSlot()`right
      modifies {down, down.left}`parent, Opt(down.left.right)`parent, down`left, down.left`right
      ensures down == old(down.left)
      ensures At(c, RotatedRight(s))
      ensures Items(RotatedRight(s)) == old(Items(s))
    {
      FootprintAllocated(c, s);
      assert Linked(s, up) && Linked(s.left, down);
      var tx := DetachRotatedRight(c, s);
      RotatedRightItems(s);
      RotateRightKeepsInOrder(c, s);
      PasteBack(tx, c, RotatedRight(s));
    }

    /** The first half of RotateRight: the subtree at the iterator is cut out and rebuilt
        rotated in a tree of its own, leaving the iterator's slot empty. */
    method DetachRotatedRight(ghost c: Path<T>, ghost s: Layout<T>) returns (tx: BinaryTree<T>)
      requires At(c, s) && HasLeft()
      modifies this`down, RootSlot()`root, LeftSlot()`left, RightSlot()`right
      modifies {down, down.left}`parent, Opt(down.left.right)`parent, down`left, down.left`right
      ensures fresh(tx) && At(c, Nil) && Represents(tx, RotatedRight(s))
      ensures Items(s) == old(Items(s))
    {
      FootprintAllocated(c, s);
      label start:
      assert Linked(s, up) && Linked(s.left, down);
      ghost var Node(Node(sa, nx, sb), ny, sc) := s;
      assert Distinct(s) && Distinct(s.left) && Nodes(s.left) == Nodes(sa) + {nx} + Nodes(sb);
      assert {nx, ny} + Opt(RootOf(sb)) <= Nodes(s) && Nodes(s) !! CtxNodes(c);
      var t1 := Cut(c, s);
      tx := RebuildRight(t1, c, s);
      ItemsKept@start(s);
    }

    /** Left rotation at the iterator: x(a, y(b, c)) becomes y(x(a, b), c), the reverse
        of RotateRight. */
    method RotateLeft(ghost c: Path<T>, ghost s: Layout<T>)
      requires At(c, s) && HasRight()
      modifies this`down, RootSlot()`root, LeftSlot()`left, RightSlot()`right
      modifies {down, down.right}`parent, Opt(down.right.left)`parent, down`right, down.right`left
      ensures down == old(down.right)
      ensures At(c, RotatedLeft(s))
      ensures Items(RotatedLeft(s)) == old(Items(s))
    {
      FootprintAllocated(c, s);
      assert Linked(s, up) && Linked(s.right, down);
      var ty := DetachRotatedLeft(c, s);
      RotatedLeftItems(s);
      RotateLeftKeepsInOrder(c, s);
      PasteBack(ty, c, RotatedLeft(s));
    }

    /** The first half of RotateLeft: the subtree at the iterator is cut out and rebuilt
        rotated in a tree of its own, leaving the iterator's slot empty. */
    method DetachRotatedLeft(ghost c: Path<T>, ghost s: Layout<T>) returns (ty: BinaryTree<T>)
      requires At(c, s) && HasRight()
      modifies this`down, RootSlot()`root, LeftSlot()`left, RightSlot()`right
      modifies {down, down.right}`parent, Opt(down.right.left)`parent, down`right, down.right`left
      ensures fresh(ty) && At(c, Nil) && Represents(ty, RotatedLeft(s))
      ensures Items(s) == old(Items(s))
    {
      FootprintAllocated(c, s);
      label start:
      assert Linked(s, up) && Linked(s.right, down);
      ghost var Node(sa, nx, Node(sb, ny, sc)) := s;
      assert Distinct(s) && Distinct(s.right) && Nodes(s.right) == Nodes(sb) + {ny} + Nodes(sc);
      assert {nx, ny} + Opt(RootOf(sb)) <= Nodes(s) && Nodes(s) !! CtxNodes(c);
      var t1 := Cut(c, s);
      ty := RebuildLeft(t1, c, s);
      ItemsKept@start(s);
    }

    /** The last step of a rotation: the rebuilt tree `t` is pasted into the empty slot
        of the iterator. Pasting moves links only, so the items read in order are kept. */
    method PasteBack(t: BinaryTree<T>, ghost c: Path<T>, ghost u: Layout<T>)
      requires At(c, Nil) && Represents(t, u) && t != whole && Nodes(u) !! CtxNodes(c)
      modifies this`down, RootSlot()`root, LeftSlot()`left, RightSlot()`right
      modifies t`root, Opt(t.root)`parent
      ensures down == old(t.root) && At(c, u)
      ensures Items(u) == old(Items(u))
    {
      NodesAllocated(u);
      label start:
      var _ := Paste(t, c, Nil, u);
      ItemsKept@start(u);
    }

    /** Runs RotateRightDetached on the tree `t` cut out from this iterator's slot; the
        rest of the tree, with its empty slot, is left as it was. */
    method RebuildRight(t: BinaryTree<T>, ghost c: Path<T>, ghost s: Layout<T>) returns (tx: BinaryTree<T>)
      requires At(c, Nil) && Represents(t, s) && s.Node? && s.left.Node?
      requires t != whole && Nodes(s) !! CtxNodes(c)
      modifies t`root, s.node`left, s.node`parent, s.left.node`right, s.left.node`parent
      modifies Opt(RootOf(s.left.right))`parent
      ensures fresh(tx) && t.root == null
      ensures At(c, Nil) && Represents(tx, RotatedRight(s))
    {
      FootprintAllocated(c, Nil);
      ghost var Node(Node(sa, nx, sb), ny, sc) := s;
      assert Nodes(s) == Nodes(sa) + {nx} + Nodes(sb) + {ny} + Nodes(sc);
      assert sb.Node? ==> sb.node in Nodes(sb);
      ghost var emptied := At(c, Nil);
      tx := t.RotateRightDetached(s);
      assert At(c, Nil) == emptied;
    }

    /** Runs RotateLeftDetached on the tree `t` cut out from this iterator's slot; the
        rest of the tree, with its empty slot, is left as it was. */
    method RebuildLeft(t: BinaryTree<T>, ghost c: Path<T>, ghost s: Layout<T>) returns (ty: BinaryTree<T>)
      requires At(c, Nil) && Represents(t, s) && s.Node? && s.right.Node?
      requires t != whole && Nodes(s) !! CtxNodes(c)
      modifies t`root, s.node`right, s.node`parent, s.right.node`left, s.right.node`parent
      modifies Opt(RootOf(s.right.left))`parent
      ensures fresh(ty) && t.root == null
      ensures At(c, Nil) && Represents(ty, RotatedLeft(s))
    {
      FootprintAllocated(c, Nil);
      ghost var Node(sa, nx, Node(sb, ny, sc)) := s;
      assert Nodes(s) == Nodes(sa) + {nx} + Nodes(sb) + {ny} + Nodes(sc);
      assert sb.Node? ==> sb.node in Nodes(sb);
      ghost var emptied := At(c, Nil);
      ty := t.RotateLeftDetached(s);
      assert At(c, Nil) == emptied;
    }

    /** The second half of Paste: the root of `t` moves into the (now empty) slot of the
        iterator, and `t` is left empty. */
    method Graft(t: BinaryTree<T>, ghost c: Path<T>, ghost u: Layout<T>)
      requires At(c, Nil) && Represents(t, u) && t != whole && u.Node?
      requires Nodes(u) !! CtxNodes(c)
      modifies this`down, RootSlot()`root, LeftSlot()`left, RightSlot()`right
      modifies t`root, t.root`parent
      ensures t.root == null && down == old(t.root) && down.parent == up
      ensures if up == null then whole.root == down else if isLeftArc then up.left == down else up.right == down
      ensures At(c, u)
    {
      var n := t.root;
      assert Linked(u.left, n) && Linked(u.right, n);
      n.parent := up;
      assert At(c, Nil) && Linked(u, up);
      Link(n, c, u);
      ghost var attached := At(c, u);
      t.root := null;
      assert At(c, u) == attached;
    }

    /** Sets the slot of the iterator, whose link currently leads to `down`, to the subtree
        `u` with top node `n` (null for the empty subtree), and moves the iterator onto it:
        the three-way assignment that ends Insert and Paste. */
    method Link(n: BinaryNode?<T>, ghost c: Path<T>, ghost u: Layout<T>)
      requires up == Above(c) && (c.Top? || isLeftArc == c.LeftOf?)
      requires Hangs(whole, c, down) && CtxDistinct(c)
      requires RootOf(u) == n && Linked(u, up) && Distinct(u) && Nodes(u) !! CtxNodes(c)
      modifies this`down, RootSlot()`root, LeftSlot()`left, RightSlot()`right
      ensures down == n
      ensures if up == null then whole.root == n else if isLeftArc then up.left == n else up.right == n
      ensures At(c, u)
    {
      if IsRoot() {
        whole.root := n;
      } else if isLeftArc {
        up.left := n;
      } else {
        up.right := n;
      }
      down := n;
    }
  }
}
