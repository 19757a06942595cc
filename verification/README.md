# Red-black tree over a node store

A model of the red-black tree in `src/rbtree.c`. The tree holds integer keys
and shares one black `nil` sentinel, in the CLRS style.

The C structure is a set of heap nodes linked by `left`, `right` and `parent`
pointers. Here it is a store of node records: `NodeStore.RbTree` holds a
`seq<NodeRec>` and a `root` link. A pointer is a slot number, and slot 0 (`Nil`)
is the sentinel. The predicate `NodeStore.Holds(a, t)` ties a store to a value
tree `Trees.Tree`. Every node of `t` sits in its slot, with its colour, its key,
its children's slots and its parent's slot. Distinct nodes use distinct slots,
and the sentinel is black.

Each C function is a method in `Operations` (rbtree.dfy). It performs the same
reads and writes in the same order, and states its effect on the value tree:
- `left_rotate`, `right_rotate` and `rbtree_transplant` are functions on the
  store (node_store.dfy).
- The two fix-up loops walk up the tree with a zipper, `Paths.Path`.
- Each case of a loop is a function on the zipper (insert_rules.dfy,
  delete_rules.dfy). Lemmas show that each case keeps the loop invariant.
- A second set of lemmas shows that the store writes perform that case
  (fixup_steps.dfy).

The main results:
- Insertion, followed by the fix-up, leaves a red-black tree. Its in-order keys
  are the old keys with the new key inserted before every equal key.
- Erasure, followed by the fix-up when the node that left its position was
  black, leaves a red-black tree. Its in-order keys are the old keys with the
  erased node's key dropped at its position.
- Search, minimum, maximum and in-order export return what the in-order key
  sequence says they should.
- Insertion and erasure change no slot's key.
- Inserting a key and then erasing the returned node gives back the same key
  sequence and the same slots.

The sentinel's `parent` field is writable, as in the C code.
`rbtree_transplant` sets `v->parent` even when `v` is `nil`. `delete_fixup`
then reads `x->parent` while `x` is `nil`. The model keeps this:
`Operations.DeleteFixup` requires that, for an empty `x`, the sentinel's parent
link names the node `x` hangs under. `Operations.Unlink` establishes that fact
on every path.

Duplicate keys go to the left subtree. The descent goes right only when the new
key is strictly greater, and the link uses `parent->key < key`
(src/rbtree.c:73-77, 86-91). CLRS's RB-INSERT, which the code otherwise follows,
sends equal keys right. The model follows the code, and `Operations.Insert`
states the resulting position: after every smaller key, before every equal one.

Nodes move, keys do not. When a node with two children is erased, its successor
node takes its place; the successor's key is not copied into it
(src/rbtree.c:345-355). So a node handed out by `rbtree_insert` or found by
`rbtree_find` keeps its key until that node itself is erased.
`NodeStore.KeysKept(a, r)` states this: every slot of the old store is a slot of
the new one and holds the same key. Every store write, rotation, insertion,
erasure and fix-up ensures it.

## Model

| member | source | states |
|---|---|---|
| Operations.NewTree | src/rbtree.c:15-35 | the new store holds the empty tree: the root is the sentinel, and the sentinel is black with empty links |
| Trees.RotateLeft | src/rbtree.c:150-172 | a left rotation on values keeps the in-order keys, the set of slots and slot distinctness |
| Trees.RotateRight | src/rbtree.c:174-193 | a right rotation on values keeps the in-order keys, the set of slots and slot distinctness |
| Trees.RotationsInverse | src/rbtree.c:150-193 | a right rotation undoes a left rotation |
| NodeStore.LeftRotate | src/rbtree.c:150-172 | `left_rotate` writes no slot other than `x`, its right child `y`, `y`'s left child and `x`'s parent, and leaves the sentinel's record alone |
| NodeStore.RightRotate | src/rbtree.c:174-193 | `right_rotate` writes no slot other than `x`, its left child `y`, `y`'s right child and `x`'s parent, and leaves the sentinel's record alone |
| NodeStore.LeftRotateRecords | src/rbtree.c:150-172 | the exact records after `left_rotate`: `y` takes `x`'s place under `x`'s parent or as root, `x` becomes `y`'s left child, `y`'s left subtree moves under `x` |
| NodeStore.RightRotateRecords | src/rbtree.c:174-193 | the exact records after `right_rotate`, the mirror image |
| NodeStore.LeftRotateFields | src/rbtree.c:150-172 | `left_rotate` changes no key and no colour in any slot |
| NodeStore.RightRotateFields | src/rbtree.c:174-193 | `right_rotate` changes no key and no colour in any slot |
| NodeStore.LeftRotateKeys | src/rbtree.c:150-172 | after `left_rotate` every slot holds the key it held before |
| NodeStore.RightRotateKeys | src/rbtree.c:174-193 | after `right_rotate` every slot holds the key it held before |
| NodeStore.LeftRotateFocus | src/rbtree.c:150-172 | on a consistent store, `left_rotate` at a node leaves a consistent store that holds the tree with that subtree rotated left; parent and child links stay consistent |
| NodeStore.RightRotateFocus | src/rbtree.c:174-193 | on a consistent store, `right_rotate` leaves a consistent store that holds the tree with that subtree rotated right |
| NodeStore.Transplant | src/rbtree.c:236-245 | `v` takes `u`'s place in `u`'s parent, or becomes the root when that parent is the sentinel; `v`'s parent becomes `u`'s parent; no other slot, no colour or key, and no child link apart from the parent's changes (`v`'s own child links are kept) |
| NodeStore.TransplantFocus | src/rbtree.c:236-245 | transplanting a node with one of its children leaves a consistent store holding the tree with that child's subtree in the node's place; the child's parent link names the node's old parent, even when the child is the sentinel |
| Operations.Find | src/rbtree.c:194-215 | on an ordered tree the result is a node exactly when the key occurs, and then it is a node of the tree holding that key; otherwise it is null |
| Operations.Min | src/rbtree.c:217-224 | on a non-empty tree, the leftmost node, holding the first in-order key, which is the least key when the tree is ordered |
| Operations.Max | src/rbtree.c:226-233 | on a non-empty tree, the rightmost node, holding the last in-order key, which is the greatest key when the tree is ordered |
| Operations.TreeMin | src/rbtree.c:314-323 | null for a null argument; otherwise the leftmost node of the subtree, holding its first and (when ordered) least key |
| Trees.Least | src/rbtree.c:319-322 | the node reached by following left links has an empty left child, is in the tree and holds the first in-order key |
| Trees.Greatest | src/rbtree.c:229-231 | the node reached by following right links has an empty right child, is in the tree and holds the last in-order key |
| EraseRules.LeftmostLeast | src/rbtree.c:319-322 | a node reached from the root through left links only, with an empty left child, is the leftmost node |
| Paths.RightmostGreatest | src/rbtree.c:229-231 | a node reached from the root through right links only, with an empty right child, is the rightmost node |
| Operations.Inorder | src/rbtree.c:368-380 | writes the subtree's in-order keys into the buffer from the position given, returns the position after the last key written, and changes nothing outside that stretch |
| Operations.ToArray | src/rbtree.c:382-390 | the tree's in-order keys fill the front of the buffer, the rest is unchanged, and the result is 0; for an empty tree nothing is written |
| Operations.Insert | src/rbtree.c:55-98 | the result is a red-black tree with one new slot, which is returned and holds the key; its in-order keys are the old ones with the key inserted after every smaller key and before every equal or larger one; the key multiset grows by exactly the key; every old slot keeps its key |
| Operations.Descend | src/rbtree.c:66-78 | the descent ends at the empty position where keys before it are smaller than the key and keys after it are at least as large; its last step went right exactly when the parent's key was smaller |
| Operations.Link | src/rbtree.c:57-91 | a fresh red slot with the key and empty children is linked at that position; the store holds the tree with it there, its slot is new, and every old slot keeps its key |
| Splices.InsertLink | src/rbtree.c:81-91 | the link's side test (`parent->key < key`) agrees with the side the descent took, so the store holds the tree with the red node in the empty position |
| InsertRules.InsertMultiset | src/rbtree.c:55-98 | inserting a key into a sequence adds exactly that key to its multiset |
| Operations.InsertFixup | src/rbtree.c:99-149 | from the insertion invariant, the loop ends with a balanced tree that has no red-red edge and a black root; the in-order keys and the slots of the tree are unchanged, and every slot of the store keeps its key |
| Operations.InsertCaseLeft | src/rbtree.c:104-124 | with the parent a left child: a red uncle recolours and moves the cursor to the grandparent; a black uncle rotates; the invariant, keys and slots are kept, every slot keeps its key, and the cursor gets closer to the root |
| Operations.InsertRotateLeft | src/rbtree.c:117-123 | black uncle, parent a left child: at most two rotations keep the invariant, keys and slots and every slot's key, and move the cursor up |
| Operations.InsertCaseRight | src/rbtree.c:127-146 | the mirror image of the left case |
| Operations.InsertRotateRight | src/rbtree.c:138-144 | the mirror image of the left rotation case |
| InsertRules.RecolorUpKeeps | src/rbtree.c:107-113 | recolouring the parent, the uncle and the grandparent keeps the insertion invariant at the grandparent |
| InsertRules.RotateInnerKeeps | src/rbtree.c:117-120 | rotating an inner cursor's parent keeps the invariant and makes the cursor outer |
| InsertRules.RotateOuterKeeps | src/rbtree.c:121-123 | recolouring and rotating the grandparent keeps the invariant and makes the parent black, which ends the loop |
| InsertRules.InsertDone | src/rbtree.c:148 | with a black parent, blackening the root gives a balanced, red-red-free tree with a black root and the same keys and slots |
| InsertRules.DescendFits | src/rbtree.c:71-77 | one step of the descent keeps smaller keys before the cursor and greater or equal keys after it |
| Operations.Erase | src/rbtree.c:326-366 | the result is a red-black tree, and 0 is returned; exactly `z`'s slot and `z`'s key at its in-order position are removed, so the key multiset shrinks by exactly `z`'s key; every other slot keeps its key, since the successor node moves instead of its key being copied |
| Operations.Unlink | src/rbtree.c:326-356 | `z` leaves the tree by one of the three ways; the colour returned is `z`'s when it has an empty side and its successor's otherwise, and the tree left is the old one minus `z`'s key and slot; no slot's key changes |
| Operations.ReplaceByChild | src/rbtree.c:331-339 | a node with an empty side is replaced by its other child; keys and slots lose exactly that node, and the loop invariant of `delete_fixup` holds when it was black |
| Operations.EraseSuccessor | src/rbtree.c:340-356 | with two children the successor takes `z`'s place and colour; the colour returned is the successor's own |
| Operations.MoveSuccessorDeep | src/rbtree.c:345-356 | a successor deeper than `z`'s right child is cut out and takes `z`'s place, both subtrees and colour; no slot's key changes |
| Operations.MoveSuccessorChild | src/rbtree.c:349-356 | a successor that is `z`'s right child takes `z`'s place, left subtree and colour, and keeps its right subtree; no slot's key changes |
| Operations.Rebalance | src/rbtree.c:362-364 | the fix-up runs exactly when the removed colour is black, and either way the tree is balanced, red-red-free and black-rooted with the same keys and slots |
| EraseRules.SpliceKeys | src/rbtree.c:331-339 | splicing out a node with an empty side removes exactly its key at its in-order position |
| EraseRules.SuccessorKeys | src/rbtree.c:340-356 | moving the successor into `z`'s place removes exactly `z`'s key at its in-order position |
| EraseRules.SuccessorIds | src/rbtree.c:340-356 | moving the successor into `z`'s place removes exactly `z`'s slot |
| EraseRules.SortedDrop | src/rbtree.c:326-366 | removing one key keeps an ordered sequence ordered |
| EraseRules.DropMultiset | src/rbtree.c:326-366 | removing the key at a position removes exactly that key from the multiset |
| Operations.DeleteFixup | src/rbtree.c:248-312 | from the deletion invariant, the loop ends with a balanced tree that has no red-red edge and a black root; keys and slots are unchanged, and every slot of the store keeps its key |
| Operations.DeleteCaseLeft | src/rbtree.c:251-260 | `x` a left child: a red sibling is recoloured and rotated away, then the black-sibling cases run; the invariant, keys and slots are kept, every slot keeps its key, and the loop measure decreases |
| Operations.DeleteBlackSiblingLeft | src/rbtree.c:262-279 | black sibling: with two black children the sibling turns red and `x` moves to its parent; otherwise the loop ends at the root |
| Operations.DeleteRotateLeft | src/rbtree.c:267-278 | cases III and IV keep the invariant, keys and slots and end the loop at the root |
| Operations.DeleteCaseRight | src/rbtree.c:281-289 | the mirror image of the left case |
| Operations.DeleteBlackSiblingRight | src/rbtree.c:291-308 | the mirror image of the left black-sibling case |
| Operations.DeleteRotateRight | src/rbtree.c:296-307 | the mirror image of cases III and IV on the left |
| DeleteRules.SiblingRedKeeps | src/rbtree.c:255-259 | case I keeps the deletion invariant and gives the cursor a black sibling |
| DeleteRules.RecolorSiblingKeeps | src/rbtree.c:262-264 | case II keeps the deletion invariant at the parent |
| DeleteRules.RotateSiblingKeeps | src/rbtree.c:267-272 | case III keeps the invariant and makes the far child red |
| DeleteRules.RotateParentKeeps | src/rbtree.c:274-278 | case IV restores the invariants and ends the loop at the root |
| DeleteRules.DeleteDone | src/rbtree.c:311 | when the loop stops, blackening `x` gives a balanced, red-red-free tree with a black root |
| Operations.InsertThenErase | src/rbtree.c:326-366 | erasing the node just inserted gives back a red-black tree with the same in-order keys and the same slots, and every old slot keeps its key |
| EraseRules.DropInserted | src/rbtree.c:326-366 | in an ordered sequence where a key was inserted before every equal key, dropping any position holding that key undoes the insertion |
| Trees.BstIffSorted | src/rbtree.c:198-210 | the node-by-node search order that the search relies on holds exactly when the in-order keys are ordered |
| Trees.HeightBound | src/rbtree.c:99-149 | a balanced, red-red-free tree is at most twice its black height (plus one for a red root), and holds at least 2^bh - 1 nodes |

## Left out

- `delete_rbtree` and `delete_node_postorder` (src/rbtree.c:37-53) only free memory, and memory is not modelled.
- Allocation failure (src/rbtree.c:17-27, 57-60) is not modelled: allocation always succeeds by appending a slot. So `new_rbtree` and `rbtree_insert` never return null here. The failure path at line 25 frees the null pointer and leaks `p`; that is not modelled either.
- `free(z)` in `rbtree_erase` (line 359) is not modelled. The erased slot stays in the store, unreachable from the root.
- The sentinel's links are set to null at line 29. The model uses slot 0 (`Nil`) for them instead.
- Operations.Min, Operations.Max: they require a non-empty tree, because the C code dereferences `root` without a check.
- Operations.ToArray: the bound `n` is never consulted, so the model requires the buffer to have room for every key.
- Operations.Erase: it requires `z` to be a node of this tree, since erasing a handle from another tree is a caller error.
- Recursion depth in `inorder` and stack limits are not modelled.
- The pointer reads of a fix-up case that feed later colour writes are done once, before the writes. Colour writes never change a link, so each read gives the same slot as in the C code.
- Operations.Link: the fresh slot is allocated after the descent, not before it. The descent never reads the new node.
- Operations.DeleteFixup: the final `x->color = BLACK` (line 311) is stated through the tree it leaves, which is red-red-free with a black root, rather than as a separate claim about `x`'s slot.
- Operations.InsertThenErase: it states that the key sequence comes back, not that the shape does. A red-black tree with the same keys may be shaped differently after the fix-ups.
- `src/driver.c` is a demonstration program that prints trees; it is not part of this model.
