# SMap: a verified model of `Map<T>`

`Map<T>` (SMap/Map.h) is an ordered container built on a binary search tree. Its parts:

- **Nodes.** Each node holds a value, an occurrence counter (`count`, 0 for one copy), a balance factor and `parent`/`left`/`right` pointers.
- **End sentinel.** The map owns a permanent sentinel node: value 0, count −1, no links. It is the target of `end()`.
- **Insert.** Walks down by the comparator. It either raises the counter of an equal node or hangs a new leaf.
- **Search.** Descends to the node holding a value, or returns `end()`.
- **Delete.** Unlinks a node and splices its in-order successor into its place.
- **Rebalancing.** After insert and delete, `Balance` does the following:
  - recomputes every balance factor (right height minus left height);
  - finds the first node whose factor is 2 or more in magnitude, right subtree first;
  - repairs that one node with a single or double rotation.
- **Iterators.** A bidirectional iterator walks the values in order with `++` and `--`. It carries a lower bound (`m_begin`) and the sentinel (`m_end`).

The model fixes `T = int` with the default comparator `a - b`. It uses exact integers: `Arena.Compare` returns the difference. Node pointers become handles into an arena of parallel sequences. The class `SMap.Map` has these fields:

- `value`, `count`, `bf`, `parent`, `left`, `right`;
- `root`;
- a ghost `shape: Tree`, a datatype of handles that gives the tree the links describe.

Handle 0 is the sentinel and −1 (`Null`) is the null pointer. A new node takes the next free slot. A deleted node keeps its slot, but it is no longer reachable.

`Map.Valid()` states the representation invariant:

- the sentinel record is intact and unreachable;
- the handles of `shape` are distinct;
- every child's `parent` link names its holder;
- `root` is the root of `shape`;
- values are in strict search-tree order.

`Map.Contents()` is the abstract value: a map from each stored value to its counter.

The model is split into four modules:

- **`Trees`** (tree.dfy): the pure tree shape, its in-order sequence, sub-trees, successor and predecessor, rotations, and the splice `Delete` performs.
- **`Arena`** (arena.dfy): when the links realise a shape (`Linked`), search-tree order (`Bst`), the comparator-guided descent (`Locate`, `Grow`), and how each pointer rewrite of the code moves the shape.
- **`Rebalancing`** (rebalance.dfy): balance factors, the unbalanced-node search and the repair, as functions of the shape.
- **`SMap`** (map.dfy): the iterator, the invariant, the stored contents and the class `Map` with the source's operations as methods.

Where the written description of the container and the code disagree, the model follows the code:

- A repeated value counts from 0, so a second insert leaves `count` at 1, not 2.
- `Insert` also rebalances after a duplicate, not only after a new leaf (SMap/Map.h:105-110).
- `--` on `end()` never reaches the last element. The iterator's lower bound is the sentinel itself, so the step does nothing (SMap/Map.h:47, 194).
- Deleting the root dereferences a null parent; the root is never updated.

## Model

| member | source | states |
|---|---|---|
| SMap.Map.constructor | SMap/Map.h:74-75 | an empty map: no root, no contents, and the arena holds only the sentinel slot (value 0, counter -1, no links) |
| SMap.Map.Insert | SMap/Map.h:82-111 | the map stays valid; a new value is added with counter 0 in one new node at the next free slot; a present value's counter rises by one and no node is created; every existing node keeps its handle and value, and every other node keeps its counter; an empty map gets a one-node tree with no rebalancing, and otherwise the factors are recomputed over the tree after the insertion and the shape is one rebalancing pass (`Rebalanced`) of that tree |
| SMap.Map.Plant | SMap/Map.h:83-86 | in an empty map the value becomes a parentless root leaf with counter 0 in the next free slot and is the only content |
| SMap.Map.Descend | SMap/Map.h:87-109 | the loop stops at the node holding the value, or at the node whose missing child on the comparator's side is where it belongs (`Locate`) |
| SMap.Map.AddLeaf | SMap/Map.h:92-104 | the new leaf hangs below the last visited node on the comparator's side; the shape becomes `Grow` of the old one, the invariant holds, the node set gains exactly the new slot, existing values and counters are kept, and the contents gain the value with counter 0 |
| SMap.Map.NewNode | SMap/Map.h:232-233 | a new node record: the given value and parent, counter 0, factor 0, no children, in the next free slot |
| SMap.Map.AddCopy | SMap/Map.h:105-108 | an equal value raises the counter of the one node holding it by one and creates no node; every other counter and the shape are unchanged |
| SMap.Map.Search | SMap/Map.h:113-131 | the result is `end()` exactly when the value is absent; otherwise it is on the node holding the value with that value's counter, its lower bound is the leftmost node and its end is the sentinel |
| SMap.Map.Leftmost | SMap/Map.h:126-129 | the loop reaches the minimum of the tree, the first node in order |
| SMap.Map.Begin | SMap/Map.h:186-192 | a non-empty map gives an iterator on its first in-order node, which is also its lower bound; an empty map gives an iterator on no node that is not equal to `end()` |
| SMap.Map.Get | SMap/Map.h:16 | `Get`, `*` and `->` read the current node's value: a stored value with that node's counter, or 0 on the sentinel |
| SMap.Map.Next | SMap/Map.h:18-38 | `++` moves to `Forward`: the in-order successor, the sentinel after the last node, and no move on the sentinel; the bounds are kept |
| SMap.Map.StepUndefined | SMap/Map.h:26-28 | the code's `++` has no parent to read exactly on the last node in order when the root has no right subtree; on every other node of the tree `Next` applies |
| SMap.Map.WalkStuck | SMap/Map.h:26-28 | when the root has no right subtree, `++` from the first node reaches the root after one step fewer than there are nodes, and the root has no parent for the last step |
| SMap.Map.Advance | SMap/Map.h:18-38 | `++` with a guard for a parentless node without a right subtree: it always moves to `Forward`, onto the sentinel from the last node |
| SMap.Map.StepBackUndefined | SMap/Map.h:43-49 | on an iterator whose lower bound is the leftmost node, the code's `--` has no parent to read exactly on the sentinel; on every node of the tree `Prev` applies |
| SMap.Map.Prev | SMap/Map.h:39-59 | `--` moves to `Backward`: the in-order predecessor, no move on a lower bound without a left subtree; the bounds are kept |
| SMap.ForwardInOrder | SMap/Map.h:18-38 | the step `Forward` of `Advance` takes the i-th node in order to the (i+1)-th node, and the last to the sentinel; `Next` takes the same step except from a root without a right subtree (`StepUndefined`) |
| SMap.BackwardInOrder | SMap/Map.h:39-59 | `--` from the i-th node in order reaches the (i−1)-th node, and stays on the first node |
| SMap.BackwardForward | SMap/Map.h:18-59 | `--` undoes `++` on every node but the last |
| SMap.ForwardBackward | SMap/Map.h:18-59 | `++` undoes `--` on every node but the first |
| SMap.WalkInOrder | SMap/Map.h:18-38 | `i` steps of `Advance` from the first node reach the i-th node in order, and the sentinel after all of them |
| SMap.WalkToEnd | SMap/Map.h:18-38 | from the first node, `Advance` applied once per node gives an iterator equal to `end()`, and no fewer steps do; the code's `++` gets there only when the root has a right subtree |
| SMap.End | SMap/Map.h:194 | `end()` has the sentinel as its end and current node; `++` and `--` leave it where it is |
| SMap.Same | SMap/Map.h:63-64 | iterator `==` compares only the current nodes, so equal iterators step to the same node under `++` whatever their bounds; `!=` is its negation |
| Arena.Compare | SMap/Map.h:74 | the default comparator is positive exactly when the first value is larger and negative exactly when it is smaller |
| Trees.SuccInOrder | SMap/Map.h:18-38 | the successor used by `++` is the next handle of the in-order sequence |
| Trees.PredInOrder | SMap/Map.h:39-59 | the predecessor used by `--` is the previous handle of the in-order sequence |
| Arena.BstSorted | SMap/Map.h:18-38 | search-tree order makes the in-order walk strictly increasing in value |
| Arena.Locate | SMap/Map.h:87-109 | a hit is a node of the tree holding the value; a miss names a node of the tree to hang the value under |
| Arena.LocateFound | SMap/Map.h:87-109 | the descent hits a node exactly when the value is stored in the tree |
| Arena.GrowHandles | SMap/Map.h:92-104 | the grown tree has exactly one more node, the new slot, and its root is unchanged unless the tree was empty |
| Arena.GrowOrdered | SMap/Map.h:92-104 | the leaf placed on the comparator's side keeps the search-tree order |
| Arena.GrowLinked | SMap/Map.h:92-104 | attaching the new slot below the last visited node realises the grown tree, with parent links consistent |
| SMap.GrowStored | SMap/Map.h:92-104 | a new leaf adds its value with counter 0 and keeps every other value and counter |
| SMap.BumpStored | SMap/Map.h:106 | raising a node's counter raises that value's counter by one and changes nothing else |
| SMap.GrowWellformed | SMap/Map.h:87-104 | hanging the new leaf keeps the whole representation invariant |
| SMap.Map.CountBalanceFactor | SMap/Map.h:247-259 | every node of the subtree gets right height minus left height (`Factors`); the result is the incoming depth plus the subtree height |
| Rebalancing.FactorsAt | SMap/Map.h:247-259 | after the pass, a node's factor is its right-minus-left height difference; slots outside the tree are unchanged |
| SMap.Map.SearchUnbalanced | SMap/Map.h:285-294 | the recursion over the links returns the node `Unbalanced` names |
| Rebalancing.UnbalancedSpec | SMap/Map.h:285-294 | the search returns null exactly when every factor lies within −1..1; otherwise it returns a tree node with factor at least 2 in magnitude |
| Rebalancing.UnbalancedRightFirst | SMap/Map.h:288-293 | when the root is balanced and the right subtree holds an unbalanced node, the search answers from the right subtree |
| SMap.Map.RotateRight | SMap/Map.h:261-271 | the links realise `RotR` of the subtree; the promoted node takes the old parent; `m_root` becomes the promoted node when there is no parent; nothing outside the subtree changes |
| SMap.Map.RotateLeft | SMap/Map.h:273-283 | the links realise `RotL` of the subtree, with the mirrored parent and root behaviour and frame |
| Trees.RotR | SMap/Map.h:261-271 | a right rotation keeps the in-order sequence, the node set and distinctness |
| Trees.RotL | SMap/Map.h:273-283 | a left rotation keeps the in-order sequence, the node set and distinctness |
| Arena.BstRotR | SMap/Map.h:261-271 | a right rotation keeps search-tree order |
| Arena.BstRotL | SMap/Map.h:273-283 | a left rotation keeps search-tree order |
| Arena.RotRLinked | SMap/Map.h:261-271 | the pointer rewrites of `RotateRight` realise the rotated subtree with consistent parent links |
| Arena.RotLLinked | SMap/Map.h:273-283 | the pointer rewrites of `RotateLeft` realise the rotated subtree with consistent parent links |
| SMap.Map.TurnRightChild | SMap/Map.h:304-306 | a left-heavy right child is rotated right and re-attached as the right child |
| SMap.Map.TurnLeftChild | SMap/Map.h:314-316 | a right-heavy left child is rotated left and re-attached as the left child |
| SMap.Map.FixRightHeavy | SMap/Map.h:302-311 | the single or double left rotation at a right-heavy node realises `Fix` of its subtree and returns the new top |
| SMap.Map.FixLeftHeavy | SMap/Map.h:312-321 | the single or double right rotation at a left-heavy node realises `Fix` of its subtree and returns the new top |
| SMap.Map.Rotate | SMap/Map.h:302-321 | chooses the repair by the sign of the factor; the links realise `Fix` of the subtree |
| SMap.Map.Adopt | SMap/Map.h:308-310 | the parent's slot that held the old node now holds the new one; no other link changes |
| Arena.AdoptLinked | SMap/Map.h:308-310 | re-attaching a rewritten subtree in its parent's slot realises the whole tree with that subtree replaced |
| SMap.Map.Repair | SMap/Map.h:299-321 | the whole tree becomes the old one with the unbalanced subtree replaced by its repair, and `m_root` follows |
| Rebalancing.Fix | SMap/Map.h:302-321 | the repair keeps the in-order sequence, the node set and distinctness |
| Rebalancing.FixOrdered | SMap/Map.h:302-321 | the repair keeps search-tree order |
| Rebalancing.Repairable | SMap/Map.h:302-316 | freshly computed factors give the unbalanced node the children the rotations dereference |
| SMap.Map.Restructure | SMap/Map.h:298-322 | the shape becomes `Rebalanced`; the invariant, the in-order sequence, the node set and the contents are kept |
| Rebalancing.RebalancedPreserves | SMap/Map.h:296-323 | one pass keeps the in-order sequence, the node set, distinctness and search-tree order |
| Rebalancing.RebalancedIdle | SMap/Map.h:296-299 | a tree whose factors all lie within −1..1 is left as it is |
| SMap.Map.Balance | SMap/Map.h:296-323 | factors are recomputed; at most one node is repaired; the invariant, the in-order sequence and the contents are kept |
| SMap.Map.Delete | SMap/Map.h:133-184 | the value leaves the contents with all its copies; the in-order sequence loses exactly its node; the invariant holds; the factors are recomputed over the tree with the node spliced out, and the shape is one rebalancing pass (`Rebalanced`) of that tree |
| SMap.Map.Detach | SMap/Map.h:137-158 | the iterator's node is spliced out of the shape; the root, values and counters are kept; the contents lose that node's value |
| SMap.Map.Unlink | SMap/Map.h:141-142 | a leaf's parent slot becomes empty and the links realise the tree without it |
| SMap.Map.Promote | SMap/Map.h:144-147 | the in-order successor takes the deleted node's parent slot and the links realise the spliced tree |
| SMap.Map.Inherit | SMap/Map.h:147-152 | a successor that is the right child takes the deleted node's left side and parent |
| SMap.Map.Transplant | SMap/Map.h:154-158 | a deeper successor leaves its parent's left slot to its right side and takes over the parent and both sides of the deleted node |
| Arena.PromoteLinked | SMap/Map.h:144-152 | the writes for a right-child successor realise the spliced tree |
| Arena.SuccessorLinked | SMap/Map.h:154-158 | the writes for a deeper successor realise the spliced tree |
| Arena.TransplantLinked | SMap/Map.h:154-158 | the writes in the code's order, after the parent adopts the successor, realise the spliced tree |
| Trees.SplicedShape | SMap/Map.h:144-158 | splicing out a node without a left subtree removes exactly that handle from the node set and the in-order sequence |
| Trees.DeleteShape | SMap/Map.h:133-184 | removing a removable node keeps the root and distinctness, and drops exactly that node from the node set and the in-order sequence |
| SMap.StoredRemove | SMap/Map.h:133-184 | removing a node from a search tree removes its value, and only that value, from the contents |
| SMap.RemoveWellformed | SMap/Map.h:133-184 | the spliced tree satisfies the representation invariant over the rewritten links |

## Left out

- Memory management is not modelled: the destructor, `Clear` and every `delete` only free memory (SMap/Map.h:77-80, 325-329, 150, 166, 181). A deleted node keeps its arena slot. `Clear` on an empty map dereferences a null root.
- The generic `T` and a user comparator are not modelled. Values are `int` and the comparator is `a - b` on exact integers, so the C++ `int` overflow of `a - b` is not represented, nor that of `count++` (SMap/Map.h:106). `Search` tests `!=` on values and not the comparator; with this comparator the two agree.
- SMap.Map.Delete: requires `Deletable(v)`, because the code fails on the other inputs:
  - the root: `replaceParent` dereferences its null parent (SMap/Map.h:138);
  - a missing value: `Search` returns `end()`, whose sentinel has no children, so the leaf branch runs and `replaceParent(nullptr)` reads the sentinel's null parent (SMap/Map.h:137-142);
  - a node with a left subtree: the parent slot is cleared before the predecessor is found, which detaches the subtree (SMap/Map.h:160-176);
  - a successor deeper than the right child that has a right subtree: that subtree keeps a stale parent link (SMap/Map.h:154).
- The root branch of `Delete` (SMap/Map.h:177-178) cannot be reached once the root is excluded, so it is not modelled.
- SMap.Map.Next: requires that a root without a right subtree is not the current node, because `++` dereferences its null parent (SMap/Map.h:28). That node is always the last one in order, so a walk from `begin()` reaches it in every such map (see Findings); `SMap.Map.Advance` is the guarded step.
- SMap.Map.Prev: requires that a parentless node without a left subtree is the lower bound. `--` on `end()` meets this and does nothing. What it excludes is `--` on an iterator that reached the sentinel through `++`: its lower bound is the leftmost node, so the step reads the sentinel's null parent (SMap/Map.h:49); `StepBackUndefined` shows this is the only position of such an iterator where the requirement fails.
- SMap.Map.Next and SMap.Map.Prev: the iterator's end must be the sentinel, as it is for every iterator the map hands out.
- SMap.Map.Next and SMap.Map.Prev: require the current position to be the sentinel or a node of the tree. On an empty map `begin()` hands out an iterator at no node at all, which differs from `end()` (`SMap.Map.Begin`), so the usual loop from `begin()` to `end()` applies `++` to it, and `++` and `--` then read a missing node (SMap/Map.h:19, 40). The model does not step such an iterator.
- SMap.Map.Search: requires a non-empty map, because the first loop test dereferences the root (SMap/Map.h:114-115).
- `TreeIterator` (SMap/Map.h:196-228) is not a separate type. Its `++`/`--` are the child moves inside `Search`'s loop. `TreeIterator::Back` (SMap/Map.h:203-208) and `Node::operator==` (SMap/Map.h:242-244) are unused by the map and not modelled.
- SMap.Map.Get: models `Get`, `*` and `->` (SMap/Map.h:16, 61-62) as a value read. No reference or pointer into a node is handed out.
- No height bound is proved. `Balance` repairs at most one node per call, so no logarithmic bound holds.

## Findings

| source | as written | input that shows it | evidently intended | confidence | as-written member | corrected member |
|---|---|---|---|---|---|---|
| SMap/Map.h:26-35 | `++` on a node without a right subtree reads its parent's value before it checks that there is a parent | after `Insert(5)` alone, `++` on `begin()` (the root 5) reads a null parent; after `Insert(5); Insert(3)`, the first `++` from `begin()` reaches the root 5 and the second reads its null parent | the last node steps onto `end()`, as the climb that reaches the root at SMap/Map.h:30-33 does | not executed; high | SMap.Map.WalkStuck | SMap.Map.Advance |
