# binarytree in Dafny

A verified model of the Go package `binarytree`: a pointer-linked binary tree whose
nodes carry `Left`, `Right` and `Parent` links and an opaque payload, a tree object that
holds only its root, and an `Iterator` — a zipper-style cursor made of the tree it
belongs to (`whole`), the node it points at (`down`, nil at an empty slot), the node
above it (`up`, nil above the root) and the side of `up` it hangs from (`isLeftArc`).

The model keeps the program's own form:

- `BinaryNode`, `BinaryTree` and `Iterator` are classes with the source's fields, and
  every edit (`Update`, `Insert`, `Cut`, `Paste`, `RotateRight`, `RotateLeft`) changes
  those fields in place, under `modifies` clauses that name the exact link it writes.
- The queries (`IsEmpty`, `IsRoot`, `IsBottom`, `HasLeft`, `HasRight`, `IsLeaf`,
  `Consult`, `IsInside`) are functions reading the fields.
- Navigation (`Up`, `Left`, `Right`, `Alias`, `LeftMost`, `RightMost`) allocates a new
  iterator and changes nothing; `LeftMost`/`RightMost` are loops with invariants.
- The payload type (`Item`, an empty interface) is a type parameter `T`.

Every operation is specified against a ghost skeleton: `Shapes.Shape` records which
node stands at each position, and a zipper `Shapes.Context` records the path from the
iterator's slot to the top. `Iterator.At(c, s)` says the iterator stands at slot `c`
above subtree `s` and the links of the whole tree agree with `Plug(c, s)`: each child's
`parent` points back at its parent, the root's `parent` is nil, and no node occurs
twice. Every edit re-establishes `At` for the new skeleton, so the contracts state both
the pointer-level effect (which link is set or cleared, which back-link agrees with it,
which tree gains or loses the subtree) and the shape-level one (rotation as
`y(x(a, b), c)` to `x(a, y(b, c))`, in-order sequence kept).

Files:

- `shapes.dfy` — module `Shapes`: skeletons, contexts, in-order sequence, plugging,
  rotations, left-most and right-most slots, and the lemmas about them.
- `binarytree.dfy` — module `BinaryTrees`: the three classes, the link invariant and
  every operation of `binarytree.go`.
- `scenarios.dfy` — module `BinaryTreeScenarios`: the scenario of
  `binarytree_test.go` and the round trips the documentation promises.

## Model

| member | source | states |
|---|---|---|
| `Shapes.PlugNodes` | binarytree.go:18-24 | the nodes of the whole tree are those on the iterator's path and its sibling subtrees together with those below the iterator |
| `Shapes.PlugDistinct` | binarytree.go:18-24 | the whole tree has no node twice exactly when the path and the subtree below the iterator have none and share none |
| `Shapes.PlugKeepsInOrder` | binarytree.go:235-244 | replacing the subtree at a position by one with the same in-order nodes keeps the in-order nodes of the whole tree |
| `Shapes.RotateRightKeepsInOrder` | binarytree.go:235-244 | y(x(a,b),c) to x(a,y(b,c)) moves no node in or out, keeps the tree a tree (both directions) and keeps the in-order node sequence of the subtree and of the whole tree |
| `Shapes.RotateLeftKeepsInOrder` | binarytree.go:254-263 | x(a,y(b,c)) to y(x(a,b),c) moves no node in or out, keeps the tree a tree (both directions) and keeps the in-order node sequence of the subtree and of the whole tree |
| `Shapes.RotationsAreInverse` | binarytree.go:244 | the left rotation undoes the right one and the right rotation undoes the left one |
| `Shapes.LeftMostHoleInSameTree` | binarytree.go:131-143 | the slot reached by following left links is an empty slot of the same tree |
| `Shapes.RightMostHoleInSameTree` | binarytree.go:117-129 | the slot reached by following right links is an empty slot of the same tree |
| `Shapes.LeftMostHoleBelowFirst` | binarytree.go:131-143 | below a non-empty subtree, that slot is the left slot of the subtree's in-order first node |
| `Shapes.RightMostHoleBelowLast` | binarytree.go:117-129 | below a non-empty subtree, that slot is the right slot of the subtree's in-order last node |
| `BinaryTrees.PlacedDescend` | binarytree.go:97-115 | the link invariant at a node's position gives it at the node's left and right child slots |
| `BinaryTrees.PlacedAscend` | binarytree.go:84-95 | the link invariant at a slot gives it one level up, and the side of the slot is the one recorded by the parent's left link |
| `BinaryTrees.PlacedInWhole` | binarytree.go:18-24 | an iterator position is consistent exactly when the whole tree is well formed with the skeleton obtained by plugging the subtree into the path |
| `BinaryTrees.RotatedRightItems` | binarytree.go:235-244 | a right rotation keeps the in-order payload sequence of the subtree |
| `BinaryTrees.RotatedLeftItems` | binarytree.go:254-263 | a left rotation keeps the in-order payload sequence of the subtree |
| `BinaryTrees.PlugKeepsItems` | binarytree.go:235-271 | replacing a subtree by one with the same in-order payloads keeps the in-order payloads of the whole tree |
| `BinaryTrees.BinaryNode.constructor` | binarytree.go:172-177 | a new node holds the item, hangs below the given parent and has no children |
| `BinaryTrees.BinaryTree.constructor` | binarytree.go:190 | `BinaryTree{}` is the well-formed empty tree |
| `BinaryTrees.BinaryTree.EmptyIffNil` | binarytree.go:30-33 | a well-formed tree is empty exactly when its skeleton is empty |
| `BinaryTrees.BinaryTree.Root` | binarytree.go:35-38 | a new iterator on this tree, above the root: `down` is the root, `up` is nil, and it stands at the top slot of every skeleton the tree has |
| `BinaryTrees.BinaryTree.CutLeft` | binarytree.go:248 | `Root().Left().Cut()` moves the root's left subtree to a new tree and leaves the left slot empty |
| `BinaryTrees.BinaryTree.CutRight` | binarytree.go:267 | `Root().Right().Cut()` moves the root's right subtree to a new tree and leaves the right slot empty |
| `BinaryTrees.BinaryTree.CutLeftRight` | binarytree.go:247 | `Root().Left().Right().Cut()` moves subtree b of y(x(a,b),c) to a new tree |
| `BinaryTrees.BinaryTree.CutRightLeft` | binarytree.go:266 | `Root().Right().Left().Cut()` moves subtree b of x(a,y(b,c)) to a new tree |
| `BinaryTrees.BinaryTree.PasteLeft` | binarytree.go:249 | `Root().Left().Paste(t)` moves the tree `t` into the empty left slot of the root and empties `t` |
| `BinaryTrees.BinaryTree.PasteRight` | binarytree.go:268 | `Root().Right().Paste(t)` moves the tree `t` into the empty right slot of the root and empties `t` |
| `BinaryTrees.BinaryTree.RotateRightDetached` | binarytree.go:246-250 | on a cut-out subtree y(x(a,b),c), the chain of cuts and pastes yields a tree holding x(a,y(b,c)) and empties the original |
| `BinaryTrees.BinaryTree.RotateLeftDetached` | binarytree.go:265-269 | on a cut-out subtree x(a,y(b,c)), the chain of cuts and pastes yields a tree holding y(x(a,b),c) and empties the original |
| `BinaryTrees.Iterator.constructor` | binarytree.go:44-52 | `NewIterator(t)`: on `t`, `down` is the root, `up` is nil, `isLeftArc` is false |
| `BinaryTrees.Iterator.QueriesAt` | binarytree.go:54-82 | at a consistent position: root iff the path is at the top, bottom iff the subtree is empty, has-left/has-right iff that child exists (false at bottom), leaf iff not bottom and no child, and `Consult` is the focus's item |
| `BinaryTrees.Iterator.Up` | binarytree.go:84-95 | fails with RootError exactly at the root; otherwise a new iterator on the same tree whose focus is the old `up`, whose `up` is that node's parent, whose side is left iff the focus is its parent's left child, and which stands one level up with the enclosing subtree below it |
| `BinaryTrees.Iterator.Right` | binarytree.go:97-105 | a new iterator on the same tree at the right child slot of the focus, on the right side, changing nothing |
| `BinaryTrees.Iterator.Left` | binarytree.go:107-115 | a new iterator on the same tree at the left child slot of the focus, on the left side, changing nothing |
| `BinaryTrees.Iterator.RightMost` | binarytree.go:117-129 | a new bottom iterator on the same tree at the right-most slot below the position; from a non-empty subtree its `up` is the in-order last node and its side is right; from bottom it is a copy of the position |
| `BinaryTrees.Iterator.LeftMost` | binarytree.go:131-143 | a new bottom iterator on the same tree at the left-most slot below the position; from a non-empty subtree its `up` is the in-order first node and its side is left; from bottom it is a copy of the position |
| `BinaryTrees.Iterator.Alias` | binarytree.go:145-153 | a new iterator with the same four fields |
| `BinaryTrees.Iterator.Update` | binarytree.go:160-167 | fails with InvalidPosition exactly at bottom; otherwise writes only the focus's item, keeps every link and the position, and the subtree's payloads change only at the focus |
| `BinaryTrees.Iterator.Insert` | binarytree.go:169-186 | the iterator's focus is a new leaf holding the item, whose parent is `up`, linked through the recorded side or as the root; the previous subtree is detached |
| `BinaryTrees.Iterator.Cut` | binarytree.go:188-205 | returns a new tree whose root is the old focus with nil parent; the slot link (root, left or right by the recorded side) is cleared; the iterator is at bottom; at bottom nothing else changes |
| `BinaryTrees.Iterator.Detach` | binarytree.go:194-203 | the link updates of a cut of a non-empty subtree, leaving the subtree as a well-formed tree of its own |
| `BinaryTrees.Iterator.Paste` | binarytree.go:207-233 | fails with CycleError and changes nothing (the position is kept) when `IsInside(t)` holds, that is when the iterator belongs to the pasted tree; otherwise the slot holds the pasted tree's old root with parent `up`, the pasted tree is empty, the replaced subtree is detached, and an empty pasted tree leaves the position at bottom |
| `BinaryTrees.Iterator.Graft` | binarytree.go:217-231 | the root of a non-empty tree moves into the empty slot, with parent `up`, and the tree is emptied |
| `BinaryTrees.Iterator.Link` | binarytree.go:178-185 | the three-way assignment of the slot (tree root, `up.Left` or `up.Right`) and of the focus |
| `BinaryTrees.Iterator.RotateRight` | binarytree.go:235-252 | y(x(a,b),c) at the iterator becomes x(a,y(b,c)) in place, the focus becomes x, and the in-order payloads of the subtree are kept |
| `BinaryTrees.Iterator.DetachRotatedRight` | binarytree.go:246-250 | the subtree is cut out and rebuilt rotated right in a tree of its own; its payloads are kept |
| `BinaryTrees.Iterator.RebuildRight` | binarytree.go:247-250 | the rebuilding of the cut-out subtree leaves the rest of the tree, with its empty slot, as it was |
| `BinaryTrees.Iterator.PasteBack` | binarytree.go:251 | the rebuilt subtree is pasted into the empty slot with its payloads kept |
| `BinaryTrees.Iterator.RotateLeft` | binarytree.go:254-271 | x(a,y(b,c)) at the iterator becomes y(x(a,b),c) in place, the focus becomes y, and the in-order payloads of the subtree are kept |
| `BinaryTrees.Iterator.DetachRotatedLeft` | binarytree.go:265-269 | the subtree is cut out and rebuilt rotated left in a tree of its own; its payloads are kept |
| `BinaryTrees.Iterator.RebuildLeft` | binarytree.go:266-269 | the rebuilding of the cut-out subtree leaves the rest of the tree, with its empty slot, as it was |
| `BinaryTreeScenarios.BuildThreeNodes` | binarytree_test.go:9-26 | a new tree is empty; after `Insert` at the root the iterator is root and leaf; after inserting on both sides the root has both children, and reading left-most, root, right-most gives the three items in order |
| `BinaryTreeScenarios.InsertLeftOfRoot` | binarytree_test.go:21 | `itr.Left().Insert(x)` hangs a new leaf holding `x` as the root's left child |
| `BinaryTreeScenarios.InsertRightOfRoot` | binarytree_test.go:22 | `itr.Right().Insert(x)` hangs a new leaf holding `x` as the root's right child |
| `BinaryTreeScenarios.ReadInOrder` | binarytree.go:117-143 | on a root with two leaves, `LeftMost().up`, the focus and `RightMost().up` hold the items in in-order sequence |
| `BinaryTreeScenarios.RotateRightThenLeft` | binarytree.go:263 | RotateLeft right after RotateRight gives back the original links, focus and payloads |
| `BinaryTreeScenarios.CutThenPaste` | binarytree.go:188-233 | pasting back the tree returned by `Cut` succeeds, restores the focus and the whole tree, and leaves the returned tree empty |
| `BinaryTreeScenarios.LeftThenUp` | binarytree.go:84-115 | `Left()` then `Up()` succeeds and returns to the same focus, parent and position |

## Left out

- The Go error values and their messages become the `Error` datatype (`RootError`, `InvalidPosition`, `CycleError`) carried by `Result` and `Outcome`.
- Nil dereferences are preconditions rather than panics: `Consult`, `Left` and `Right` require a focus, `RotateRight` a left child and `RotateLeft` a right child. The code panics on `Consult` at bottom rather than failing with an error; the model follows the code.
- Every navigation and edit method of the iterator requires `At(c, s)`: the tree is well formed and the iterator's fields still describe a slot of it. The source does not check this. An iterator made stale by an edit through another iterator is not modelled.
- BinaryTrees.Iterator.Paste: requires the pasted tree's nodes to be disjoint from the iterator's tree. The source does not check this; without it the result would not be a tree.
- BinaryTrees.Iterator.RotateRight: its contract states the kept payloads for the rotated subtree. For the whole tree, the same follows from its `modifies` clause, which writes no payload, together with `PlugKeepsItems`. RotateLeft is the same.
- BinaryTrees.Iterator.RightMost: the loop walks over local copies of `up`, `down` and `isLeftArc` and writes them to the fresh alias once, after the loop. The alias is not visible to anyone during the loop, so the result is the same. LeftMost is the same.
- The rotations' helpers (`DetachRotatedRight`, `RebuildRight`, `PasteBack` and the `BinaryTree` cut and paste chains) group the source's chain of calls. They do not name the intermediate iterator objects it creates.
- Garbage collection of the subtree discarded by `Insert` and `Paste` is not modelled. The model only shows that the subtree is unlinked, with its top node's parent nil.
- The test writes its checks as `a == b == false`, which also passes when both queries are false. `BuildThreeNodes` proves the stronger statement that both hold.
