# Pointer-based priority queues, modelled in Dafny

This project models the heap code of the `binomial-heap` crate. It covers four hand-built structures.

- **Pairing heap** (`src/heap/pairing.rs`). Each node has a value, a `next` pointer to its right sibling and a `child` pointer to its leftmost child. The heap holds an optional root and a `size` counter.
  - `merge_unchecked` melds two roots. The larger root becomes the first child of the smaller one; on a tie `root` wins.
  - `merge_list` consolidates a sibling list in two passes. The first pass pairs trees left to right onto a reversed accumulator. The second pass folds the accumulator from its front.
  - `insert` and `delete_min` are built on these two operations.
  - `clone` and `drop` walk the tree with an explicit stack. `fmt_rec` prints one line per node, indented by depth.
- **Lazy binomial heap** (`src/heap/binomial.rs`). The roots form a cyclic doubly linked list, and `min` points at a root of least key. Every node carries a `degree`.
  - `insert` splices a fresh node in front of `min`.
  - `delete_min` removes the minimum root. When other roots remain, they and that root's children are consolidated by `merge_list`; a sole root's child ring becomes the root list as it is. `merge_list` uses a vector `v` of `ilog2(size) + 1` slots, one per degree. Trees of equal degree are linked by `merge`, and the survivors are relinked into one ring.
- **Cyclic list** (`src/heap/cycliclist.rs`). A doubly linked list with `head`, `tail` and `size`. The links themselves are not circular: `next` of the tail and `prev` of the head are empty. The `next`/`prev` queries wrap around to `head` or `tail`.
- **Fibonacci root insertion** (`src/heap/fibonacci.rs`). The roots live in a cyclic list with a cursor on a least-keyed root. `add_root` inserts after the cursor and moves the cursor only to a strictly smaller key.

## How each structure is modelled

**Pairing heap.**
- `pairing_tree.dfy` is the pure reference. `Tree = Nil | Tree(val, child, next)` mirrors the node encoding. `Meld`, `MeldOpt`, `PairUp`, `FoldIn` and `TwoPass` follow `merge_unchecked`, `merge`, the two loops of `merge_list` and the whole of `merge_list`. `Render` follows `fmt_rec`.
- `pairing_heap.dfy` has a class `Node` with an immutable `val` and mutable `next`/`child` fields. A ghost `Shape` records the pointer skeleton. `Abs` maps a shape to the reference `Tree`. Each pointer-rewiring method is proved to compute the matching reference function on `Abs`.
- Class `PairingHeap` keeps `head`, `size`, and ghost `shape`/`tree` fields.

**Binomial heap.**
- `binomial_tree.dfy` is the value-level reference: `BTree(key, kids)`, binomial shape with `2^degree` keys, heap order, and `Link`/`Adopt` for `merge`.
- `binomial_heap.dfy` has a class `Node` with `key`/`next`/`prev`/`child`/`degree` fields. A ghost `Shape` tree holds the nodes, each child list read from the `child` cursor. `Ring` states that `next`/`prev` are mutually consistent around a list.
- The consolidation vector `v` is a `seq<Node?>` that the methods reassign. A ghost `seq<Option<Shape>>` sits beside it.

**Cyclic list.**
- `cyclic_list.dfy` has a class `CyclicList<T>` over `Cell<T>` objects. A ghost `cells` sequence gives the order from `head` to `tail`.
- Every operation states the new `cells` as `InsertedAfter`, `InsertedBefore` or `Removed` of the old one.

**Fibonacci heap.**
- `fibonacci.dfy` has a class `FibonacciHeap` holding a `CyclicList<Tree>`, the cursor cell `min`, and `size`. A ghost position `at` tracks the cursor.

**A note on the pairing first pass.** The first pass of `merge_list` stores the accumulator as the `next` of each pushed tree (`src/heap/pairing.rs:78`). For the first tree the accumulator is still the null pointer, and `(&*newtree).into()` makes a reference and then a `NonNull` from it. That is undefined behaviour in Rust, so the source has no defined result there. The model gives that tree the intended empty `next` (`Nil`).

## Model

| member | source | states |
|---|---|---|
| PairingTree.RootIsMin | src/heap/pairing.rs:139-146 | in a heap-ordered root tree the root value occurs in the tree and is at most every value; the values are the root plus those under `child` |
| PairingTree.Meld | src/heap/pairing.rs:52-64 | melding two roots yields a single root whose `next` is empty |
| PairingTree.MeldSpec | src/heap/pairing.rs:52-64 | the meld holds the multiset union and the summed size; the smaller value survives (ties keep `root`); the demoted root is prepended to the winner's existing children; heap order is preserved |
| PairingTree.MeldUnder | src/heap/pairing.rs:55-60 | demoting the loser under the winner keeps the values and heap order when the winner's value is not larger |
| PairingTree.MeldOpt | src/heap/pairing.rs:39-47 | a missing side returns the other side unchanged; the result is empty or a single root |
| PairingTree.MeldOptSpec | src/heap/pairing.rs:39-47 | the result holds the union of values and is heap-ordered when both inputs are |
| PairingTree.PairUp | src/heap/pairing.rs:70-80 | the first pass yields nothing exactly when the list and the accumulator are both empty |
| PairingTree.PairUpElems | src/heap/pairing.rs:70-80 | the first pass keeps every value of the list and of the accumulator |
| PairingTree.PairUpOrdered | src/heap/pairing.rs:70-80 | the first pass keeps heap order |
| PairingTree.PairUpIsReversedPairwise | src/heap/pairing.rs:70-80 | the first pass's sibling list is the left-to-right pairwise melds (an odd last tree alone), reversed, in front of the accumulator |
| PairingTree.FoldIn | src/heap/pairing.rs:85-92 | the second pass yields a single root |
| PairingTree.FoldInSpec | src/heap/pairing.rs:85-92 | the second pass keeps all values and heap order |
| PairingTree.FoldInIsFoldSeq | src/heap/pairing.rs:85-92 | the second pass is a left fold of meld over the accumulator from its front |
| PairingTree.TwoPass | src/heap/pairing.rs:67-96 | an empty sibling list gives `None`; otherwise the result is one root with empty `next` |
| PairingTree.TwoPassSpec | src/heap/pairing.rs:67-96 | consolidation keeps exactly the values of the list and keeps heap order |
| PairingTree.TwoPassIsPairThenFold | src/heap/pairing.rs:67-96 | consolidation equals the pairing pass followed by the fold of its result |
| PairingTree.InsertSpec | src/heap/pairing.rs:132-137 | melding a singleton into a heap of n values gives a heap of n + 1 values with the new value added |
| PairingTree.DeleteMinSpec | src/heap/pairing.rs:139-151 | the root value is the minimum; consolidating its children gives a heap of n - 1 values, the old ones minus the root value |
| PairingTree.Render | src/heap/pairing.rs:100-114 | one line per node, the first being the root at the given indentation |
| PairingTree.RenderValues | src/heap/pairing.rs:100-114 | the printed lines list exactly the values of the tree |
| PairingTree.RenderDepthExact | src/heap/pairing.rs:100-114 | each printed line is indented by exactly the depth of its node (children one level below the parent, siblings level with each other) plus the starting indentation |
| PairingHeap.RenderPreorder | src/heap/pairing.rs:100-114 | the printed lines carry the values of the cells in the preorder that the teardown visits, one for one |
| PairingTree.RenderDepth | src/heap/pairing.rs:100-114 | no printed line is indented less than the starting indentation |
| PairingHeap.CellsIsSize | src/heap/pairing.rs:6-10 | the number of nodes reachable through `child`/`next` equals the size of the abstract tree |
| PairingHeap.PreorderDistinct | src/heap/pairing.rs:196-219 | the preorder of a well-formed node structure visits each node exactly once and has one entry per node |
| PairingHeap.CopyFaithful | src/heap/pairing.rs:161-194 | a node-for-node copy with mirrored `next`/`child` links is well formed and has the same abstract tree |
| PairingHeap.Node.constructor | src/heap/pairing.rs:19-33 | a new node holds the value and has no sibling and no child |
| PairingHeap.Node.MergeUnchecked | src/heap/pairing.rs:52-64 | the pointer rewiring computes `Meld` on the abstract trees; the result is a root over the union of the nodes |
| PairingHeap.Node.Merge | src/heap/pairing.rs:39-47 | the optional merge computes `MeldOpt` on the abstract trees |
| PairingHeap.Node.MergeList | src/heap/pairing.rs:67-96 | consolidation in place computes `TwoPass` over the same nodes |
| PairingHeap.Node.FirstPass | src/heap/pairing.rs:70-80 | the first loop computes `PairUp` of the list onto an empty accumulator |
| PairingHeap.Node.PairStep | src/heap/pairing.rs:71-79 | one round of the first loop keeps `PairUp` of the rest and the accumulator unchanged and strictly shortens the rest |
| PairingHeap.Node.Unlink | src/heap/pairing.rs:71-72 | cutting the head off a sibling list leaves that root alone plus the rest, splitting the nodes |
| PairingHeap.Node.MeldNext | src/heap/pairing.rs:73-76 | the head is melded with the next sibling, which is cut off first |
| PairingHeap.Node.Push | src/heap/pairing.rs:78-79 | pushing a root onto the accumulator links it in front |
| PairingHeap.Node.SecondPass | src/heap/pairing.rs:82-94 | the second loop computes `FoldIn` of the accumulator |
| PairingHeap.Node.FoldStep | src/heap/pairing.rs:88-92 | one round of the second loop keeps `FoldIn` unchanged and strictly shortens the rest |
| PairingHeap.Node.MeldNew | src/heap/pairing.rs:133-135 | melding a fresh singleton into the root computes `MeldOpt` with a one-node tree; the heap owns its old nodes plus exactly one fresh node |
| PairingHeap.Node.DetachChildren | src/heap/pairing.rs:142-144 | clearing the root's child and consolidating computes `TwoPass` of the old children, over exactly the old nodes but the root |
| PairingHeap.Node.Walk | src/heap/pairing.rs:203-214 | the inner loop of the teardown visits a node, its child chain and pushes siblings, preserving the preorder still to visit |
| PairingHeap.Node.VisitCell | src/heap/pairing.rs:204-209 | visiting one node pushes its sibling and continues at its child, preserving the preorder still to visit |
| PairingHeap.Node.DropAll | src/heap/pairing.rs:196-219 | the explicit-stack teardown visits the nodes in preorder |
| PairingHeap.Node.CloneAll | src/heap/pairing.rs:163-187 | the explicit-stack copy yields fresh nodes with the same abstract tree |
| PairingHeap.Node.CloneRound | src/heap/pairing.rs:168-184 | one pop of the stack copies at least one more node and keeps the copy map consistent with the original |
| PairingHeap.Node.CloneWalk | src/heap/pairing.rs:169-183 | the inner loop copies a node and its child chain, keeping the copy map consistent |
| PairingHeap.Node.CloneCell | src/heap/pairing.rs:170-182 | one step copies the sibling and the child of a node and links them under its copy |
| PairingHeap.Node.CopyNext | src/heap/pairing.rs:170-174 | a present sibling gets a fresh copy and is pushed on the stack |
| PairingHeap.Node.CopyChild | src/heap/pairing.rs:175-179 | a present child gets a fresh copy |
| PairingHeap.Node.NewCopy | src/heap/pairing.rs:176 | a fresh node with the original's value is added to the copy map |
| PairingHeap.Node.PushNext | src/heap/pairing.rs:171-173 | the sibling's copy is created and the pair is pushed on the stack |
| PairingHeap.Node.LinkCell | src/heap/pairing.rs:172-177 | the copy's `next`/`child` are set to the copies of the original's `next`/`child` |
| PairingHeap.Node.FmtRec | src/heap/pairing.rs:100-114 | the recursive printer over pointers produces `Render` of the abstract tree |
| PairingHeap.PairingHeap.constructor | src/heap/pairing.rs:118-124 | a new heap is empty with `size` 0 |
| PairingHeap.PairingHeap.Len | src/heap/pairing.rs:126-128 | `len` is the number of stored values |
| PairingHeap.PairingHeap.Install | src/heap/pairing.rs:135-136 | storing a heap-ordered root with its count leaves a valid heap whose root, tree and `size` are those given |
| PairingHeap.PairingHeap.Insert | src/heap/pairing.rs:132-137 | the value is added to the multiset, `size` grows by one, and heap order is kept; the heap owns its old nodes plus exactly one fresh node |
| PairingHeap.PairingHeap.DeleteMin | src/heap/pairing.rs:139-151 | on an empty heap returns `None` and changes nothing; otherwise returns the root value, which is at most every stored value, and leaves the old multiset minus it with `size` one less, owning exactly its old nodes but the old root |
| PairingHeap.PairingHeap.DeleteRoot | src/heap/pairing.rs:140-146 | the non-empty branch returns the minimum and leaves `TwoPass` of the old children, owning exactly its old nodes but the old root |
| PairingHeap.PairingHeap.Clone | src/heap/pairing.rs:161-194 | the clone is a fresh heap with the same tree shape, values and `size` |
| PairingHeap.PairingHeap.Drop | src/heap/pairing.rs:196-219 | the teardown visits every node exactly once, `size` nodes in all |
| PairingHeap.PairingHeap.Fmt | src/heap/pairing.rs:155-159 | the Debug output is `Render` of the tree from indentation 0 |
| BinomialTree.ILog2 | src/heap/binomial.rs:177 | `usize::ilog2` of a positive n is the r with `2^r <= n < 2^(r+1)` |
| BinomialTree.DegreeFits | src/heap/binomial.rs:177 | a degree d with `2^d <= n` is at most `ilog2(n)` |
| BinomialTree.RootIsMin | src/heap/binomial.rs:219-234 | the root key of a binomial tree occurs in it and is at most every key |
| BinomialTree.AfterCursor | src/heap/binomial.rs:143-151 | splicing after the cursor puts the node second and keeps the cursor first |
| BinomialTree.BeforeCursor | src/heap/binomial.rs:133-141 | splicing before the cursor puts the node last in the ring read from the cursor |
| BinomialTree.InsertNodeListSpec | src/heap/binomial.rs:122-131 | inserting a tree into a child ring adds it and its keys, and the cursor becomes the smaller-keyed of old cursor and new tree (ties keep the old) |
| BinomialTree.InsertNodeList | src/heap/binomial.rs:122-131 | inserting a tree into a non-empty child ring makes it one longer and puts the tree in it; the cursor becomes the new tree when the old cursor's key is larger, else stays |
| BinomialTree.Link | src/heap/binomial.rs:96-120 | the merged root key is the smaller of the two (ties keep `root`); the winner's children gain exactly the loser |
| BinomialTree.Adopt | src/heap/binomial.rs:99-116 | the winner keeps its key and gains the loser as a child; the child cursor is the loser when the winner had no children or its cursor's key is larger, else the old cursor |
| BinomialTree.AdoptSums | src/heap/binomial.rs:99-106 | adopting a tree adds its keys and size and raises the degree by one |
| BinomialTree.LinkElems | src/heap/binomial.rs:96-120 | linking keeps the union of keys; the smaller root key wins with ties to `root`; the winner's degree grows by exactly one |
| BinomialTree.AdoptOrdered | src/heap/binomial.rs:96-120 | after adoption every child key is at least the winner's key and the child cursor is a least child |
| BinomialTree.LinkBinomial | src/heap/binomial.rs:96-120 | linking two binomial trees of equal degree yields a binomial tree of one higher degree |
| BinomialHeap.Node.constructor | src/heap/binomial.rs:24-41 | a new node holds the key, has no links, no child and degree 0 |
| BinomialHeap.NewCyclic | src/heap/binomial.rs:43-59 | the new node forms a one-element ring with itself |
| BinomialHeap.InsertNodeNext | src/heap/binomial.rs:143-151 | after splicing after `ptr` the ring is consistent again and has the node right after `ptr` |
| BinomialHeap.InsertNodePrev | src/heap/binomial.rs:133-141 | after splicing before `ptr` the ring is consistent again and has the node right before `ptr` |
| BinomialHeap.InsertNode | src/heap/binomial.rs:122-131 | the ring gains the node after the cursor and the returned cursor is the smaller-keyed of `min` and the node, keeping `min` on ties |
| BinomialHeap.AbsKidsAfter | src/heap/binomial.rs:122-131 | the pointer splice of a child abstracts to `InsertNodeList` on trees |
| BinomialHeap.AdoptFirst | src/heap/binomial.rs:111-115 | a winner without children gets the loser as a one-element child ring whose `next` and `prev` are the loser itself |
| BinomialHeap.AdoptInto | src/heap/binomial.rs:109-110 | a winner with children gets the loser spliced into its child ring |
| BinomialHeap.AdoptNode | src/heap/binomial.rs:109-116 | adoption makes the winner's structure the adopted tree over the union of the nodes |
| BinomialHeap.LinkChild | src/heap/binomial.rs:99-116 | once the loser is in the child ring, setting the winner's `child` and raising its `degree` by one makes the winner a well-formed tree over that ring |
| BinomialHeap.Merge | src/heap/binomial.rs:96-120 | returns the smaller-keyed root (ties keep `root`) whose structure abstracts to `Link` of the two trees |
| BinomialHeap.DegreeBound | src/heap/binomial.rs:182 | a binomial tree among at most n keys has degree at most `ilog2(n)`, so every index into `v` is in bounds |
| BinomialHeap.NewSlots | src/heap/binomial.rs:177 | the slot vector has `ilog2(size) + 1` empty slots |
| BinomialHeap.MergeBeside | src/heap/binomial.rs:183 | merging two trees of equal degree gives a binomial tree of one higher degree over both sets of nodes and keys |
| BinomialHeap.TakeAndMerge | src/heap/binomial.rs:182-183 | taking the occupant of the current degree's slot and merging keeps all nodes and keys and raises the degree by one |
| BinomialHeap.Absorb | src/heap/binomial.rs:182-185 | the inner loop stores the tree after merging away every equal-degree occupant; slots stay one per degree and no key is lost |
| BinomialHeap.Step | src/heap/binomial.rs:180-189 | one round of the outer loop moves one root into the slots and returns the next root to visit |
| BinomialHeap.AbsorbFirst | src/heap/binomial.rs:182-185 | absorbing the current root keeps the walk state for the remaining roots, with the same nodes and keys on both sides taken together |
| BinomialHeap.AbsorbBeside | src/heap/binomial.rs:182-185 | absorbing one tree adds exactly its nodes and keys to the slots and leaves the roots still to visit as they were |
| BinomialHeap.Walk | src/heap/binomial.rs:180-200 | walking a chain of roots moves all of their nodes and keys into the slots |
| BinomialHeap.FirstWalk | src/heap/binomial.rs:177-189 | after the first loop the slots hold exactly the nodes and keys of the root chain |
| BinomialHeap.Walks | src/heap/binomial.rs:177-200 | after both loops the slots hold exactly the nodes and keys of the roots and of the children |
| BinomialHeap.FirstSlot | src/heap/binomial.rs:201-202 | the first occupied slot gives the first survivor |
| BinomialHeap.LinkNext | src/heap/binomial.rs:206-207 | linking a survivor after the previous one extends the consistent prefix |
| BinomialHeap.RelinkRound | src/heap/binomial.rs:205-212 | one round of the relink loop keeps the prefix linked and the running minimum the first least survivor so far |
| BinomialHeap.LinkSurvivors | src/heap/binomial.rs:201-212 | the relink loop links all survivors in slot order and tracks the first least one |
| BinomialHeap.CloseRing | src/heap/binomial.rs:213-214 | closing the last link makes the survivors a consistent ring |
| BinomialHeap.Relink | src/heap/binomial.rs:201-216 | the survivors form a consistent ring and the returned node has the least key, being the first such in slot order |
| BinomialHeap.MergedDegrees | src/heap/binomial.rs:201-215 | the survivors have pairwise distinct degrees, each below the number of slots |
| BinomialHeap.MergeList | src/heap/binomial.rs:172-217 | consolidation returns a least-keyed root of one consistent ring with pairwise distinct degrees below `ilog2(size) + 1`, over exactly the nodes and keys of both input chains |
| BinomialHeap.LeastKey | src/heap/binomial.rs:171 | the key at the cursor of a heap-ordered root ring is the minimum of all keys |
| BinomialHeap.NewRoot | src/heap/binomial.rs:166 | an empty heap gains a one-node root ring holding the key |
| BinomialHeap.SpliceRoot | src/heap/binomial.rs:157-162 | a fresh node spliced before `min` is the last root of the ring, adds exactly its key, and is the one node the ring gains |
| BinomialHeap.NewLeast | src/heap/binomial.rs:156-159 | a strictly smaller new root becomes the cursor and the ring read from it is still valid |
| BinomialHeap.InsertRoot | src/heap/binomial.rs:154-164 | the ring gains exactly one fresh node with the key, spliced just before the old `min`; the cursor stays on the old `min` unless the key is strictly smaller, and then moves to the new node |
| BinomialHeap.PlaceRoot | src/heap/binomial.rs:154-167 | an empty heap gets a one-node ring on the new node; otherwise as `InsertRoot`: the new node goes just before `min` and becomes the cursor only for a strictly smaller key |
| BinomialHeap.LoneRoot | src/heap/binomial.rs:222-223 | `min.prev == min` exactly when `min` is the only root |
| BinomialHeap.OnlyRoot | src/heap/binomial.rs:223-224 | a sole root's child cursor starts a valid ring with a least key, holding all keys but the root's |
| BinomialHeap.SplitRoots | src/heap/binomial.rs:226-231 | with several roots, the others and the children form two disjoint chains holding all keys but the minimum |
| BinomialHeap.OpenChain | src/heap/binomial.rs:226 | cutting `prev.next` turns the other roots into a chain that ends in `None` |
| BinomialHeap.MergeRest | src/heap/binomial.rs:226-231 | consolidating the other roots with the children keeps every key but the minimum, over exactly the nodes of those roots and children |
| BinomialHeap.RemoveMin | src/heap/binomial.rs:220-233 | removing the minimum root leaves a valid heap of `size - 1` keys, the old ones minus the minimum, over exactly the old nodes but the minimum; a sole root is replaced by its child ring as it stands, with the old `min.child` as cursor |
| BinomialHeap.BinomialHeap.constructor | src/heap/binomial.rs:82-88 | a new heap has no roots and no keys |
| BinomialHeap.BinomialHeap.Len | src/heap/binomial.rs:90-92 | `len` is the number of stored keys |
| BinomialHeap.BinomialHeap.MinIsLeast | src/heap/binomial.rs:17-21 | the `min` root holds a least stored key |
| BinomialHeap.BinomialHeap.Insert | src/heap/binomial.rs:153-169 | the key is added and `size` grows by one; the heap owns exactly one more node, fresh, with the key; an empty heap gets it as its one root; otherwise it goes just before the old `min` (last from `min`), and `min` stays unless the key is strictly smaller, when it becomes the new node |
| BinomialHeap.BinomialHeap.Install | src/heap/binomial.rs:166-168 | storing a valid root ring with its cursor and count leaves a valid heap with exactly that cursor, count and ring |
| BinomialHeap.BinomialHeap.DeleteMin | src/heap/binomial.rs:219-239 | on an empty heap returns `None` and changes nothing; otherwise returns a least key, removes it and decrements `size`, owning exactly its old nodes but the old `min`; a sole root is replaced by its child ring as it stands, with the old `min.child` as cursor; otherwise, after consolidation no two roots share a degree |
| BinomialHeap.BinomialHeap.DeleteRoot | src/heap/binomial.rs:221-234 | on a non-empty heap returns a least key, leaves the old multiset minus that key with `size` one less, owns exactly its old nodes but the old `min`; a sole root is replaced by its child ring as it stands, with the old `min.child` as cursor; when other roots remained, leaves roots of pairwise distinct degrees |
| CyclicList.Succ | src/heap/cycliclist.rs:82-88 | the successor position wraps to the first exactly at the last |
| CyclicList.Pred | src/heap/cycliclist.rs:90-96 | the predecessor position wraps to the last exactly at the first |
| CyclicList.SuccPred | src/heap/cycliclist.rs:82-96 | `next` and `prev` undo each other |
| CyclicList.InsertedAfter | src/heap/cycliclist.rs:99-118 | inserting after position i places the item at i + 1 and shifts the later items, keeping their order |
| CyclicList.InsertedBefore | src/heap/cycliclist.rs:120-139 | inserting before position i places the item at i and shifts the later items, keeping their order |
| CyclicList.Removed | src/heap/cycliclist.rs:142-165 | removing position i closes the gap and keeps the order of the others |
| CyclicList.RemoveInserted | src/heap/cycliclist.rs:99-165 | deleting what was just inserted restores the list |
| CyclicList.InsertedMultiset | src/heap/cycliclist.rs:99-139 | an insertion adds exactly one item |
| CyclicList.LinkedAfter | src/heap/cycliclist.rs:101-114 | rewiring around a node inserted after position i leaves all `prev`/`next` links consistent |
| CyclicList.LinkedBefore | src/heap/cycliclist.rs:122-135 | rewiring around a node inserted before position i leaves all `prev`/`next` links consistent |
| CyclicList.LinkedRemoved | src/heap/cycliclist.rs:146-161 | rewiring around a removed node leaves all `prev`/`next` links consistent |
| CyclicList.Cell.constructor | src/heap/cycliclist.rs:28-34 | a node holds its key and the given links |
| CyclicList.CyclicList.constructor | src/heap/cycliclist.rs:69-76 | a new list holds one node that is both `head` and `tail`, with size 1 |
| CyclicList.CyclicList.Len | src/heap/cycliclist.rs:174-176 | `len` is the number of keys |
| CyclicList.CyclicList.TakeOne | src/heap/cycliclist.rs:78-80 | `take_one` returns the head |
| CyclicList.CyclicList.Next | src/heap/cycliclist.rs:82-88 | returns the following node, and the head after the tail |
| CyclicList.CyclicList.Prev | src/heap/cycliclist.rs:90-96 | returns the preceding node, and the tail before the head |
| CyclicList.CyclicList.InsertNext | src/heap/cycliclist.rs:99-118 | a fresh node holding the key is placed right after `pos`, `size` grows by one, and it becomes `tail` exactly when `pos` was the tail |
| CyclicList.CyclicList.PushTail | src/heap/cycliclist.rs:100-105 | inserting after the tail appends and makes the new node `tail` |
| CyclicList.CyclicList.LinkAfter | src/heap/cycliclist.rs:106-117 | inserting after an inner node puts it between `pos` and its old successor |
| CyclicList.CyclicList.InsertPrev | src/heap/cycliclist.rs:120-139 | a fresh node holding the key is placed right before `pos`, `size` grows by one, and it becomes `head` exactly when `pos` was the head |
| CyclicList.CyclicList.PushHead | src/heap/cycliclist.rs:121-126 | inserting before the head prepends and makes the new node `head` |
| CyclicList.CyclicList.LinkBefore | src/heap/cycliclist.rs:127-138 | inserting before a later node puts it between its old predecessor and `pos` |
| CyclicList.CyclicList.Delete | src/heap/cycliclist.rs:142-165 | a one-element list is unchanged and `pos` is returned; otherwise `pos` is removed and unlinked, `size` drops by one, and the result is the new head, the head after a deleted tail, or the successor |
| CyclicList.CyclicList.UnlinkHead | src/heap/cycliclist.rs:145-150 | deleting the head makes its successor the head and returns it |
| CyclicList.CyclicList.UnlinkTail | src/heap/cycliclist.rs:151-156 | deleting the tail makes its predecessor the tail and returns the head |
| CyclicList.CyclicList.UnlinkMiddle | src/heap/cycliclist.rs:157-164 | deleting an inner node joins its neighbours and returns its successor |
| CyclicList.CyclicList.Render | src/heap/cycliclist.rs:181-191 | the Debug rendering lists exactly `size` keys in order from `head` |
| FibonacciHeap.Leaf | src/heap/fibonacci.rs:17-22 | a new node is a heap-ordered tree holding just its key |
| FibonacciHeap.RootLeast | src/heap/fibonacci.rs:4-7 | in a heap-ordered tree the root key occurs and is at most every key |
| FibonacciHeap.ElemsFInserted | src/heap/fibonacci.rs:41-42 | inserting a root after the cursor adds exactly its keys |
| FibonacciHeap.CellsGrow | src/heap/fibonacci.rs:42 | a root list whose cells gain one cell, counted with multiplicity, gains exactly that cell in its set of cells |
| FibonacciHeap.OrderedAfterInsert | src/heap/fibonacci.rs:41-42 | inserting a heap-ordered root keeps every root heap-ordered |
| FibonacciHeap.LeastAfterInsert | src/heap/fibonacci.rs:43-45 | after insertion the cursor (moved only to a strictly smaller key) is again at a least root |
| FibonacciHeap.LeastRootIsMin | src/heap/fibonacci.rs:43-45 | the key of a least root is the minimum of all keys in the heap |
| FibonacciHeap.FibonacciHeap.constructor | src/heap/fibonacci.rs:31-33 | a new heap has no root list and `size` 0 |
| FibonacciHeap.FibonacciHeap.MinIsLeast | src/heap/fibonacci.rs:10-13 | the cursor root's key occurs in the heap and is at most every key |
| FibonacciHeap.FibonacciHeap.Insert | src/heap/fibonacci.rs:35-38 | the key is added to the heap and `size` grows by exactly one; the root list keeps its cells and gains only fresh ones |
| FibonacciHeap.FibonacciHeap.AddRoot | src/heap/fibonacci.rs:40-51 | an empty heap gets a one-element list with the cursor on it; otherwise the root goes right after the cursor, which moves to that fresh cell only for a strictly smaller key; the root list keeps its cells and gains only fresh ones |
| FibonacciHeap.OneRoot | src/heap/fibonacci.rs:48-49 | a new list holds just the given tree in one fresh cell, and the cursor taken from it is that cell |
| FibonacciHeap.FibonacciHeap.StartRoots | src/heap/fibonacci.rs:47-50 | without a root list, a new one-cell list holds just the tree, its one fresh cell is the cursor, and the heap's keys are the tree's |
| FibonacciHeap.FibonacciHeap.GrowRoots | src/heap/fibonacci.rs:41-45 | the non-empty branch of `add_root`: the root goes right after the cursor, which moves to the fresh cell only for a strictly smaller key; the root list keeps its cells and gains only fresh ones |
| FibonacciHeap.FibonacciHeap.SpliceRoot | src/heap/fibonacci.rs:41-45 | the non-empty branch of `add_root` inserts after the cursor and keeps it at a least root, moving it to the returned cell only for a strictly smaller key; the list's cells, counted with multiplicity, are the old ones plus exactly the returned fresh cell |
| FibonacciHeap.FibonacciHeap.SpliceAfterCursor | src/heap/fibonacci.rs:42 | the list gains the root right after the cursor position, in a fresh cell that is the one cell added, counted with multiplicity |
| FibonacciHeap.FibonacciHeap.MoveCursor | src/heap/fibonacci.rs:44 | moving the cursor to a least root restores the heap's invariant |

## Left out

- Raw memory management is not modelled: `Box::leak`, `Box::from_raw`, `alloc`/`dealloc` and `drop_in_place`. Nodes are Dafny objects, and the teardown is modelled as the order in which it visits nodes.
- PairingTree.PairUp: the first pass's null accumulator at `src/heap/pairing.rs:78` is undefined behaviour in the source; the model uses the intended empty `next` (`Nil`) there.
- Reference counting is not modelled. `Rc`/`Weak`/`RefCell` become plain nullable references, and `Indexer` is the cell it points at.
- CyclicList.CyclicList.Next, CyclicList.CyclicList.Prev, CyclicList.CyclicList.InsertNext, CyclicList.CyclicList.InsertPrev and CyclicList.CyclicList.Delete require a live cursor (`cells[i] == pos`), as every caller in the crate passes. The source also accepts a stale `Indexer` whose cell `delete` has unlinked, and the model does not capture what then happens: `next` returns the head (`src/heap/cycliclist.rs:82-88`), `prev` returns the tail (`src/heap/cycliclist.rs:90-96`), `insert_next` and `insert_prev` panic on an `unwrap` (`src/heap/cycliclist.rs:107`, `128`), and `delete` panics (`src/heap/cycliclist.rs:158`) or, with one cell left, returns the cursor.
- `Indexer::into_key` (`src/heap/cycliclist.rs:60-64`) and `Node::into_key` (`src/heap/binomial.rs:72-78`) are left out. They only move the key out of a freed node, and the model returns the key directly.
- `Node::unlink` (`src/heap/binomial.rs:61-69`) is left out because nothing calls it.
- `Node::key` (`src/heap/fibonacci.rs:24-26`) is read as the field directly.
- Values are `int`, not a generic `T: Ord`. The Fibonacci `i32` key is an unbounded `int`. `usize` overflow of `size` is not modelled; the source cannot reach it without exhausting memory.
- Formatter mechanics are not modelled: tab text, `writeln!` errors, brackets and separators. `fmt_rec` and the list's Debug are modelled as the sequence of lines or keys they print. `fmt_tree` and the Debug of the binomial heap (`src/heap/binomial.rs:245-267`) are not part of this model.
- Ghost positions and shapes (`i`, `at`, `Shape`, `cells`) exist only in the model, to name positions that the source finds by pointer identity.
- The consolidation vector `v` of `merge_list` is a sequence that the methods reassign, not a heap-allocated `Vec`.
- Amortized running time, `src/heap/list.rs`, `src/lib.rs`, the benchmarks and the test-only experiments are not part of this model.
- FibonacciHeap.FibonacciHeap.Insert: counts the new key before calling `add_root`, while the source counts it after. The two steps touch disjoint state and neither can fail, so the order is not observable.
- PairingHeap.PairingHeap.Drop: states the visit order and that each node is visited once. The source's `drop` only runs `drop_in_place` on each node (`src/heap/pairing.rs:208`, `src/heap/pairing.rs:211`). That drops the values but never frees the allocations that `Box::leak` made (`src/heap/pairing.rs:28-32`, `src/heap/pairing.rs:133-134`), so every node still in the heap leaks. Only `delete_min` frees a node, through `Box::from_raw` (`src/heap/pairing.rs:146`). The model has no allocator, so neither the freeing nor the leak is modelled.
