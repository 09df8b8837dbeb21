# ABTree in Dafny

A model of the ABTree library: `ABTreeSet`, a binary search tree of
integers whose nodes hold `left`, `right` and `parent` links and a cached
`count`, with an optional alpha weight-balance rule (`top / bottom`) that
rebuilds a subtree median-first; and `ABTreeMap`, a map kept as an
`ABTreeSet` of key/value entries.

The Java node objects live in an arena: the field `nodes: seq<NodeRec>`
of the set holds one record per node ever allocated, a reference is an
index into it, and `null` is `-1`. Nodes are never freed, and the
arena order (`Arena.Wf`: children after their parent, parents before
their children) holds through every operation, whatever the links look
like. That order makes every walk terminate. The tree the `root` field
holds is the ghost value `Sub(nodes, root)` of type `Trees.Tree`. A tree
is `Exact` when it is a search tree, has no repeated node, its parent
links agree with its child links, and every cached count equals its
subtree size.

The model reproduces the code as written, including its known defects.
updateCount measures only the leftmost and rightmost spines. unlinkNode
mislinks two of its one-child branches. A parentless leaf or left-only
node throws on unlink. `remove` never lowers `size`. The balance test
compares against the whole tree's size. Each of these is stated as a
contract or lemma instead of being hidden behind a precondition. Java
exceptions are values of `SetEngine.Outcome`. A JVM stack overflow in the
recursion add → rebalance → rebalanceHelper → add is a `fuel` argument
running out.

Where the code and its documentation disagree, the model follows the
code:
- The constructor with `top` and `bottom` does not check 1/2 < alpha < 1.
- `remove` (set and map) leaves `size` unchanged.
- The map's `keySet()` is documented to have the same tree shape as the
  entry set. The code adds the keys to a fresh, non-balancing set in
  iteration order, which is descending key order, so each key goes left
  of the one before: a chain, not a copy of the entry set's shape. `KeySet` states
  only what the code guarantees: an exact fresh set holding exactly the
  map's keys.
- The map's `values()` lists values in descending key order. The
  entries' `compareTo` reverses the natural order, while the
  documentation promises ascending order (`MapAdapter.KeysDescend`).

Files and modules:
- `trees.dfy` (`Trees`): pure trees, search, insertion and traversal orders.
- `arena.dfy` (`Arena`): node records, `Sub`, the count and parent walks,
  and successor.
- `insertion.dfy` (`Insertion`): attaching a leaf keeps a tree `Exact`.
- `removal.dfy` (`Removal`): unlinkNode branch by branch and what each
  branch does to the tree.
- `rebuild.dfy` (`Rebuild`): the median-first order of rebalanceHelper.
- `iteration.dfy` (`Iteration`): iterator and successor order.
- `rendering.dfy` (`Rendering`): the toString layout.
- `abtreeset.dfy` (`SetEngine`): the classes `ABTreeSet` and `ABTreeIterator`.
- `abtreemap.dfy` (`MapAdapter`): the classes `Entry` and `ABTreeMap`.

## Model

| member | source | states |
|---|---|---|
| SetEngine.ABTreeSet.constructor | ABTreeSet.java:132-138 | an empty, non-balancing set with top = bottom = 0 |
| SetEngine.ABTreeSet.WithBalance | ABTreeSet.java:149-158 | an empty set; alpha = 2/3 exactly when self-balancing, else top and bottom stay 0 |
| SetEngine.ABTreeSet.WithAlpha | ABTreeSet.java:173-182 | an empty set keeping any top and bottom when self-balancing (no range check), 0 and 0 otherwise |
| SetEngine.ABTreeSet.SetSelfBalance | ABTreeSet.java:481-484 | only the flag changes |
| SetEngine.ABTreeSet.GetBSTNode | ABTreeSet.java:311-324 | the result is the node on the search path holding the element, or -1; on a search tree, -1 exactly when the element is absent |
| SetEngine.ABTreeSet.Contains | ABTreeSet.java:302-305 | true iff the descent finds a node; on a search tree, iff the element is stored |
| SetEngine.ABTreeSet.Add | ABTreeSet.java:191-293 | null throws and changes nothing; an empty tree gets a one-node root; a present element gives false and changes nothing; otherwise the new store is `Attached` (leaf at the end of the search path, ancestors' counts +1), `size` + 1, and no rebuild happens iff no ancestor is heavy; a clean add keeps the tree `Exact` and adds the element to its keys; no fuel left for a needed rebuild is a stack overflow; `size` never falls, and a successful add with a rebuild raises it by more than one |
| SetEngine.ABTreeSet.AddSlot | ABTreeSet.java:201-210 | the descent stops at a node holding the element iff one is found, else at the end node of the search path, whose slot facing the element is empty |
| SetEngine.ABTreeSet.AddBelow | ABTreeSet.java:201-292 | the same cases as Add below a non-empty root |
| SetEngine.ABTreeSet.HangLeaf | ABTreeSet.java:211-214 | the store gains one leaf holding the element, hung on the side facing it, and `size` rises by one |
| SetEngine.ABTreeSet.Grow | ABTreeSet.java:211-244 | the store becomes `Attached` and the reported node is the topmost heavy ancestor (`Trigger`), or -1 |
| SetEngine.ABTreeSet.Attach | ABTreeSet.java:211-248 | the attach-and-maybe-rebuild tail of add: clean iff `Trigger` is -1, then the result is true with the attached store |
| SetEngine.ABTreeSet.IsHeavy | ABTreeSet.java:224-241 | the result is `Heavy`: a present child whose count times bottom reaches size times top |
| SetEngine.ABTreeSet.WalkUp | ABTreeSet.java:216-244 | every ancestor of the new leaf gets count + 1, nothing else changes, and the last heavy node met is `Trigger` |
| SetEngine.AddWalkSpec | ABTreeSet.java:219-244 | the step-by-step walk (raise, then test) equals raising the whole ancestor chain and then taking the topmost heavy node |
| SetEngine.AddExact | ABTreeSet.java:201-248 | a clean add of an absent element into an `Exact` tree gives an `Exact` tree whose keys gain exactly that element |
| SetEngine.AttachedData | ABTreeSet.java:211-221 | attaching moves no element; the new node holds the added one |
| SetEngine.ABTreeSet.UpdateCount | ABTreeSet.java:610-622 | only the node's count changes, to 1 + the lengths of its leftmost and rightmost spines |
| Arena.SpineCountAtMostSize | ABTreeSet.java:610-622 | updateCount's value lies between 1 and the true subtree size |
| SetEngine.ABTreeSet.RecountUp | ABTreeSet.java:561-565 | the store becomes `RecountWalk`: updateCount applied to the node and each ancestor |
| Arena.RecountWalkFacts | ABTreeSet.java:561-565 | the walk changes no link, and sets each node on the parent chain to its spine count and no other count |
| SetEngine.ABTreeSet.UnlinkNode | ABTreeSet.java:551-601 | the store becomes `Unlink(nodes, n)` and a NullPointerException is raised exactly when that unlink dereferences null |
| Removal.Unlink | ABTreeSet.java:551-601 | each branch of unlinkNode keeps the arena order and its length |
| Removal.UnlinkLeafTree | ABTreeSet.java:556-567 | unlinking a non-root leaf of an `Exact` tree removes exactly its element and node and keeps it a search tree with consistent links |
| Removal.UnlinkLeftOnlyTree | ABTreeSet.java:568-582 | a left-only node that is its parent's left child: exactly its element and node go, order and links stay consistent |
| Removal.UnlinkLeftOnlyAsRight | ABTreeSet.java:568-582 | a left-only node that is a right child: the parent's right slot gets the node's null right link, so the node's whole subtree leaves the tree while the orphan still points to the parent |
| Removal.UnlinkRightOnlyAsLeft | ABTreeSet.java:583-595 | a right-only left child is spliced out (keys minus its element), but its child's parent link still names the removed node, so the links become inconsistent |
| Removal.UnlinkRightOnlyAsRight | ABTreeSet.java:583-595 | a right-only node that is a right child (or the root) keeps its place and loses its right subtree: its element stays and the subtree's keys go |
| Removal.UnlinkTopThrows | ABTreeSet.java:556-573 | a parentless node without right child throws before changing anything |
| Removal.UnlinkTwoChildren | ABTreeSet.java:596-600 | with two children the successor is the leftmost node of the right subtree, holds the least key there, greater than the node's own, has no left child and a parent, and unlinking is copying its element and unlinking it |
| Removal.UnlinkMiscounts | ABTreeSet.java:556-567 | on a concrete exact four-node tree, unlinking a leaf leaves the root's count at 2 although its subtree holds 3 elements |
| Removal.UnlinkData | ABTreeSet.java:551-601 | unlinking changes no element except the copy of the successor's element into a two-child node |
| SetEngine.ABTreeSet.Remove | ABTreeSet.java:428-464 | absent: false, nothing changes; present: the store becomes `Unlink`, a NullPointerException propagates, else no rebuild iff no node on the walk from the old parent is heavy, and then true with `size` unchanged; `size` never falls, and a successful rebuild raises it |
| SetEngine.ABTreeSet.RemoveWalk | ABTreeSet.java:437-460 | the node reported is the topmost heavy node on the walk from the old parent, or -1 without self-balancing |
| Arena.HighestIsTopmostHeavy | ABTreeSet.java:216-244 | the node the walk remembers is heavy, on the walk, and no node nearer the root on the walk is heavy; -1 means none is |
| SetEngine.ABTreeSet.Successor | ABTreeSet.java:498-512 | the result is `Arena.Successor`: the leftmost node of the right subtree, else the end of the climb from right children |
| Iteration.SuccessorIsNext | ABTreeSet.java:498-512 | on a tree with consistent links, successor is the next node in order and -1 after the last |
| SetEngine.ABTreeSet.InorderHelper | ABTreeSet.java:342-350 | the shared list gains the subtree's nodes in left-node-right order |
| SetEngine.ABTreeSet.InorderList | ABTreeSet.java:332-336 | the list is the subtree's in-order nodes, one per node, carrying the in-order keys; ascending keys on a search tree, no repeats without repeated nodes |
| Trees.InorderAscending | ABTreeSet.java:342-350 | the in-order keys of a search tree strictly ascend |
| SetEngine.ABTreeSet.PreorderHelp | ABTreeSet.java:378-384 | the shared list gains the subtree's nodes node-left-right; a null start appends null and throws |
| SetEngine.ABTreeSet.PreorderList | ABTreeSet.java:367-372 | the list holds each node of the subtree once, node-left-right; null throws |
| SetEngine.ABTreeSet.Rebalance | ABTreeSet.java:390-405 | the rebuild keeps the arena order and the flags; `root` ends at -1 or at a node allocated by the rebuild, and not at -1 on success; `size` never falls, rises on success (the first re-add into the emptied `root` always counts), and rises by at most the node's `count` when no nested rebuild runs; on success without a nested rebuild, the rebuilt subtree is exact below the node's old parent, fills the slot the node held there, and its keys are exactly the elements of the first `count` in-order nodes, which are the old subtree's keys when the node's `count` is accurate |
| SetEngine.ABTreeSet.RebuildListed | ABTreeSet.java:396-404 | the rebuild from the list and the relink: the same frame, flag and size facts as rebalance; on success without a nested rebuild, the rebuilt subtree is exact below the old parent, sits on the side `left` names, and holds exactly the elements at list positions 0 to `count - 1` |
| SetEngine.ABTreeSet.Relink | ABTreeSet.java:398-404 | the rebuilt root gets the old parent, and the parent's left or right link names it |
| SetEngine.HangExact | ABTreeSet.java:398-404 | hanging an exact root-level subtree below an older node leaves the subtree unchanged and exact below its new parent |
| SetEngine.ListedAll | ABTreeSet.java:391-397 | the elements at in-order positions 0 to size - 1 of a subtree are exactly its keys |
| SetEngine.ABTreeSet.RebalanceHelper | ABTreeSet.java:411-418 | on success the list positions added are `MedianOrder(start, end)`; a range beyond the shared list throws an index error; `size` never falls, rises by at most the range's length without nested rebuilds, and rises when started on an empty `root`; without a nested rebuild the list and every old node's element and parent stay, and on success the range lies inside the list and an exact tree stays exact and gains exactly the elements listed at positions `start` to `end` |
| SetEngine.ABTreeSet.RebuildHalves | ABTreeSet.java:414-417 | both recursive calls: on success the positions added are the halves' median orders; without a nested rebuild the list and old nodes stay, and an exact tree gains exactly the elements both halves list |
| SetEngine.ABTreeSet.RebuildRight | ABTreeSet.java:416-417 | the right recursive call, made only when `middle` is not `end`, with the same facts for the right half alone |
| SetEngine.RangeKeys | ABTreeSet.java:411-418 | the midpoint's element and the two halves' elements are together exactly what the whole range lists, when the adds keep the old nodes' elements |
| SetEngine.ABTreeSet.AddEntry | ABTreeSet.java:413 | the add of the element of the node at list position `middle` keeps the flags and keeps `root` or moves it to a new node; `size` never falls, and rises by at most one without a nested rebuild; into an empty `root` it succeeds and `size` rises by exactly one; without a nested rebuild the list and every old node's element and parent stay, and an exact tree stays exact and gains exactly that element |
| Rebuild.MedianOrderIsPermutation | ABTreeSet.java:411-418 | the order adds every position of the range exactly once, the midpoint first |
| SetEngine.ABTreeSet.ToString | ABTreeSet.java:519-523 | the text is the layout of the whole tree; without line breaks in elements it has one line per node plus one per single-child gap (one `null` line for an empty tree) |
| SetEngine.ABTreeSet.AppendIndent | ABTreeSet.java:532-534 | four spaces per level are appended |
| SetEngine.ABTreeSet.Level | ABTreeSet.java:531-544 | the builder gains the `Layout` of the subtree at that depth |
| Rendering.LayoutLines | ABTreeSet.java:531-544 | line count of the layout: nodes plus single-child gaps |
| SetEngine.ABTreeSet.Iterator | ABTreeSet.java:358-360 | a fresh cursor on this set at the leftmost node, nothing pending |
| SetEngine.ABTreeIterator.constructor | ABTreeSet.java:20-26 | the cursor starts at the leftmost node, or null when empty |
| SetEngine.ABTreeIterator.HasNext | ABTreeSet.java:29-31 | true iff a current node is set |
| SetEngine.ABTreeIterator.Next | ABTreeSet.java:34-58 | exhausted: NoSuchElement and nothing changes; else the current element is returned, it becomes pending, and the cursor moves to `IterSuccessor` |
| Iteration.IterationOrder | ABTreeSet.java:34-58 | on a tree with consistent links the cursor starts at the first in-order node, each step goes to the next one, and the last step ends at null |
| Iteration.ClimbsAgree | ABTreeSet.java:45-55 | the iterator's climb and successor's climb stop at the same node |
| SetEngine.ABTreeIterator.Remove | ABTreeSet.java:61-69 | nothing pending: IllegalState; else the store becomes `Unlink` of the pending node, the cursor moves back onto it when it had two children, and pending clears unless unlinking throws |
| MapAdapter.Entry.constructor | ABTreeMap.java:16-19 | the entry holds the key and the value |
| MapAdapter.Entry.CompareTo | ABTreeMap.java:22-29 | 0 iff equal keys, 1 iff this key is smaller: reversed natural order on keys, natural order on stored elements |
| MapAdapter.EntryOrder | ABTreeMap.java:22-29 | compareTo is antisymmetric, 0 only for equal keys, and agrees with the order on stored elements |
| MapAdapter.Entry.SetValue | ABTreeMap.java:42-45 | the value is replaced and the new value returned |
| MapAdapter.ABTreeMap.constructor | ABTreeMap.java:59-65 | an empty map over a fresh default set, size 0 |
| MapAdapter.ABTreeMap.WithBalance | ABTreeMap.java:75-84 | an empty map storing the flag and 2/3, while its set stays non-balancing |
| MapAdapter.ABTreeMap.WithAlpha | ABTreeMap.java:99-108 | an empty map storing any alpha when self-balancing, while its set stays non-balancing |
| MapAdapter.ABTreeMap.ContainsKey | ABTreeMap.java:118-120 | true iff the descent finds the key's element; on a search tree, iff it is stored |
| MapAdapter.ABTreeMap.Get | ABTreeMap.java:129-134 | the found entry's value, else nothing; on a search tree, a value iff the key is stored |
| MapAdapter.ABTreeMap.Put | ABTreeMap.java:170-182 | afterwards the key maps to the new value and other entries keep theirs; found: the previous value is returned and the tree and `size` stay; absent: nothing is returned, `size` + 1, a fresh entry, and an `Exact` tree stays exact with the key added |
| MapAdapter.ABTreeMap.Insert | ABTreeMap.java:177-180 | a fresh entry is added as a plain attach, `size` + 1, other entries unchanged |
| MapAdapter.ABTreeMap.Remove | ABTreeMap.java:193-202 | absent: nothing and no change; present: the set's store becomes `Unlink` of the found node, a NullPointerException propagates, else the entry's value is returned and `size` stays |
| MapAdapter.ABTreeMap.Size | ABTreeMap.java:209-211 | the stored count |
| MapAdapter.ABTreeMap.KeySet | ABTreeMap.java:147-154 | a fresh exact non-balancing set whose keys are exactly the map's keys |
| MapAdapter.ABTreeMap.Values | ABTreeMap.java:231-238 | the values of the stored entries in in-order sequence, one per node |
| MapAdapter.KeysDescend | ABTreeMap.java:231-238 | on a search tree the in-order sequence visits keys in strictly descending order |

## Left out

- Generic element and key types: elements and keys are `int`, compared
  by integer order, and Java's `int` overflow in `count * bottom` and
  `size * top` is not modelled (integers are unbounded).
- null elements other than `add(null)`, and null keys and values of the
  map: element, key and value parameters are plain integers. (`put`
  documents a NullPointerException for a null value, ABTreeMap.java:167-168,
  but its code never raises one.)
- The JVM call stack: `fuel` bounds the nesting add → rebalance →
  rebalanceHelper → add, and running out is the StackOverflow outcome.
- `data.toString()`: the rendering of one element is a parameter of
  `ToString` and `Level`.
- The `BSTNode` interface, `Node`'s accessors and `toString`, `root()`,
  `size()` of the set and the inherited `AbstractSet` methods: plain field
  reads with nothing to prove.
- `ABTreeMap.toString`, which only returns the entry set's `toString`,
  and the map's unused `root` field.
- MapAdapter.Entry.GetKey and MapAdapter.Entry.GetValue: plain accessors;
  they carry no contract beyond their bodies.
- MapAdapter.ABTreeMap.Put: writes the new value into the entry directly,
  as the Java does, rather than through `setValue`.
- MapAdapter.ABTreeMap.KeySet and MapAdapter.ABTreeMap.Values: specified
  only on trees with consistent parent links and no shared node. After a
  mislinking unlink, the Java iterator's walk need not visit every node,
  and need not end.
- SetEngine.ABTreeSet.Remove and SetEngine.ABTreeSet.Add: when they
  trigger a rebuild, their own contracts state only the frame, flag and
  size facts; what the rebuild leaves is stated by rebalance's contract.
- SetEngine.ABTreeSet.Rebalance and SetEngine.ABTreeSet.RebuildListed:
  the rebuilt subtree is described only when no nested rebuild runs. A
  nested rebuild (a re-add that itself triggers rebalance) replaces the shared `root` and `inorder` fields
  mid-way, and the model then states only the frame, flag and size facts.
- SetEngine.ABTreeSet.RebalanceHelper, SetEngine.ABTreeSet.RebuildHalves,
  SetEngine.ABTreeSet.RebuildRight and SetEngine.ABTreeSet.AddEntry: the
  elements added and the tree's keys are stated only when no nested
  rebuild runs, for the same reason.
  The model also does not state which nodes the rebuilt tree is made of,
  only that it is exact and which elements it holds.
- SetEngine.ABTreeSet.Rebalance: each re-add goes through `add`,
  which raises `size` (ABTreeSet.java:396-397 with 197, 214 and 258),
  so a rebuild inflates `size` by up to the rebuilt node's `count`. The
  contract gives this as bounds (rises on success, at most `count` without
  a nested rebuild), not as an exact amount. The amount depends on
  whether each listed element is still absent when it is re-added, and a
  nested rebuild replaces the shared `root` and `inorder` mid-way.
- Removal.UnlinkTwoChildren: the effect of unlinking a node with two
  children is stated as its reduction to unlinking the successor, not as
  an end-to-end statement on the keys.
- Object identity of map entries: the model finds an entry through the
  element its node stores (`entries`) rather than through the node's
  `data` reference.
