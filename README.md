# Order-3 B-tree: a verified model

This project models the B-tree of `src/main.cpp`. It is a template class
`BTree` over nodes of class `BTreeNode`, with `ORDER = 3`. Every node holds a
sorted vector of keys and, when it is internal, a vector of child pointers. A
node with `2*ORDER-1 = 5` keys is full. `insert` splits a full root before it
descends. `insert_non_full` splits a full child before descending into it, so
the insertion never meets a full node. `exist` walks down from the root with
`find_key`, the backward scan of a key vector.

The project is in three modules.

- `BTreeSpec` (`btree_spec.dfy`) describes a tree as a value: a `datatype Node`
  of leaf flag, keys and children. It restates every operation as a function
  over such values (`FindKey`, `InsertKey`, `SplitChild`, `InsertNonFull`,
  `SplitRoot`, `Insert`, `Search`). It also defines the B-tree invariant
  `IsBTree`:
  - `Shaped`: a node holds at most 5 keys, an internal node has one child more
    than it has keys, and all leaves sit at one depth;
  - `Filled`: every node below the root holds at least 2 keys;
  - `Ordered`: key vectors are sorted, and each child's keys lie between the
    separating keys around it.
- `BTreeProofs` (`btree_lemmas.dfy`) proves what the functions guarantee:
  - every operation keeps `IsBTree`;
  - an insertion adds exactly one key to the multiset of stored keys;
  - splitting keeps the stored keys;
  - `Search` answers exactly "is the key stored?".
- `BTreeImpl` (`btree_impl.dfy`) holds the two C++ classes as Dafny classes
  on the heap. Their fields are `isLeaf`, `keys` and `children`, and `root`
  for the tree. Each node carries a ghost `Tree` (the value it stands for)
  and a ghost `Repr` (the nodes it owns). Every method is proved to change
  `Tree` exactly as the matching `BTreeSpec` function does. So the lemmas of
  `BTreeProofs` hold of the heap structure, and `BTree.Insert` and
  `BTree.Exist` carry them in their own postconditions.

`find_key` returns a `size_t`, so for a key below every stored key it returns
`SIZE_MAX`. In `children[index + 1]`, `keys[index + 1]` and
`split_child(index + 1)` (`src/main.cpp:34-43` and `src/main.cpp:113`) the `size_t` sum wraps
around to 0. The leaf insertion at `src/main.cpp:30` is different: it computes
`(keys.begin() + index) + 1`, iterator arithmetic in which `index` converts to
the iterator's signed difference type, -1. The iterator steps one place before
`begin()` and back again. Strictly, C++ leaves that step undefined, and in
practice it lands on position 0. The heap model computes every one of these
positions modulo 2^64 (`ToSizeT`, `SizeTInc`), which gives position 0 in the
leaf case as well. The value model uses the `int` index -1 and proves that
the two agree.

The behaviour follows the code. The second Python test file
(`tests/test_btree.py:22-43`) calls `remove`, `height` and `size`, and
`src/main.cpp` defines none of them, so they are not part of this model.

## Model

| member | source | states |
|---|---|---|
| BTreeSpec.FindKey | src/main.cpp:66-74 | the result is the rightmost index whose key is <= `key` (every later key is greater), or -1 when there is none |
| BTreeProofs.LemmaFindKeyUnique | src/main.cpp:66-74 | an index where the backward scan may stop (its key is <= `key` and every later key is greater) is exactly `FindKey`, so the scan's result is unique |
| BTreeImpl.BTreeNode.FindKey | src/main.cpp:66-74 | the loop returns `FindKey` converted to `size_t`, so a key smaller than every key gives the largest `size_t` value |
| BTreeImpl.ToSizeT | src/main.cpp:73 | the `int`-to-`size_t` return conversion: a non-negative index is kept and -1 becomes 2^64-1 |
| BTreeImpl.SizeTInc | src/main.cpp:34 | `index + 1` on `size_t`: the successor below 2^64-1, and 0 for 2^64-1 |
| BTreeImpl.LemmaSizeTModular | src/main.cpp:73 | the C++ rule for `size_t`: the conversion of an `int` to `size_t` and the `+ 1` on `size_t` both equal the mathematical result modulo 2^64 |
| BTreeImpl.LemmaSizeTIncAfterFind | src/main.cpp:26-34 | for every index `find_key` can return (-1 included), `index + 1` on `size_t` is the integer index plus one |
| BTreeSpec.IsFull | src/main.cpp:19-22 | a node is full when it holds 2*ORDER-1 = 5 keys |
| BTreeImpl.BTreeNode.IsFull | src/main.cpp:19-22 | true exactly when the abstract node is full |
| BTreeImpl.BTreeNode.constructor | src/main.cpp:17 | a new node holds no keys and no children and has the requested leaf flag |
| BTreeSpec.InsertKey | src/main.cpp:30 | the key goes in at `find_key + 1`, after every key <= it and before every greater key; the length grows by one and the multiset gains exactly that key |
| BTreeSpec.LemmaInsertKeySorted | src/main.cpp:30 | inserting at `find_key + 1` keeps a sorted key vector sorted |
| BTreeSpec.LemmaSplitChildAt | src/main.cpp:47-64 | after `split_child(ci)`: key `ci` is the child's median; children `ci` and `ci+1` are the lower and upper halves; earlier entries are unchanged and later ones shift right by one |
| BTreeSpec.LemmaSplitChildShaped | src/main.cpp:47-64 | splitting a full child of a shaped node gives a shaped node of the same height, with one more key and child; neither half is full |
| BTreeSpec.LowerHalf | src/main.cpp:57-63 | the part of a full node that stays: its first ORDER-1 keys and, when internal, its first ORDER children (no contract of its own; `LemmaHalvesKeys` relates it to the node) |
| BTreeSpec.UpperHalf | src/main.cpp:52-61 | the new sibling of `split_child`: the full node's leaf flag, its last ORDER-1 keys and, when internal, its last ORDER children (no contract of its own; `LemmaHalvesKeys` relates it to the node) |
| BTreeProofs.LemmaHalvesKeys | src/main.cpp:50-63 | the lower keys, the median and the upper keys put back together give the full node's key vector; when internal, the two child vectors together give its children; the stored multiset is split with nothing lost |
| BTreeSpec.SplitChild | src/main.cpp:47-64 | `split_child(ci)` as a value (no contract of its own; `LemmaSplitChildAt` states where every key and child goes, and the lemmas below state what the split keeps) |
| BTreeProofs.LemmaSplitChildKeys | src/main.cpp:47-64 | `split_child` keeps the multiset of keys stored under the node |
| BTreeProofs.LemmaSplitChildOrdered | src/main.cpp:47-64 | `split_child` keeps the node's keys sorted and each child's keys between its separators |
| BTreeProofs.LemmaSplitChildFilled | src/main.cpp:47-64 | every node below the top keeps ORDER-1 = 2 keys or more after `split_child`, because both halves of a full child hold exactly ORDER-1 keys (the upper bound of 5 comes from `LemmaSplitChildShaped`) |
| BTreeImpl.BTreeNode.UpperHalfOf | src/main.cpp:52-53 | the new node has the child's leaf flag, its last ORDER-1 keys and, when internal, its last ORDER children; it owns none of the children that stay behind |
| BTreeImpl.BTreeNode.KeepLowerHalf | src/main.cpp:57-63 | the full child keeps its first ORDER-1 keys and, when internal, its first ORDER children |
| BTreeImpl.BTreeNode.SplitOff | src/main.cpp:49-63 | the returned median is key ORDER-1 of the full child; the child becomes the lower half and a fresh sibling the upper half; their footprints are disjoint |
| BTreeImpl.BTreeNode.Adopt | src/main.cpp:50-55 | the median enters the key vector at `ci` and the sibling enters the child vector at `ci+1`; the node then stands for `SplitChild(old, ci)` |
| BTreeImpl.BTreeNode.SplitChild | src/main.cpp:47-64 | the heap node ends up standing for `SplitChild(old, ci)`; only new nodes join its footprint |
| BTreeSpec.InsertNonFull | src/main.cpp:24-45 | the result is shaped and of the same height; it is a leaf exactly when the input is one, and the top node's key vector does not shrink; the stored keys are stated by `LemmaInsertNonFullKeys` |
| BTreeSpec.SplitThenInsert | src/main.cpp:34-43 | the branch that splits the full target child and descends gives a shaped internal node of the same height with exactly one more key in its own key vector |
| BTreeSpec.InsertIntoChild | src/main.cpp:43 | descending into a child with room gives a shaped internal node of the same height whose own key vector keeps its length |
| BTreeProofs.LemmaInsertNonFullKeys | src/main.cpp:24-45 | `insert_non_full` adds exactly `key` to the multiset of stored keys |
| BTreeProofs.LemmaInsertNonFullOrdered | src/main.cpp:24-45 | `insert_non_full` keeps every key vector sorted and every child between its separators |
| BTreeProofs.LemmaInsertBySplitOrdered | src/main.cpp:34-43 | the branch that splits the full target child and then descends keeps the order |
| BTreeProofs.LemmaInsertByDescentOrdered | src/main.cpp:43 | the branch that descends into a target child with room keeps the order |
| BTreeProofs.LemmaInsertNonFullFilled | src/main.cpp:24-45 | every node below the top keeps ORDER-1 = 2 keys or more after `insert_non_full` (the upper bound of 5 comes from `InsertNonFull`'s shape guarantee) |
| BTreeProofs.LemmaInsertNonFullRoot | src/main.cpp:94 | insertion into a non-full root keeps the whole B-tree invariant and the height, and adds exactly `key` |
| BTreeImpl.BTreeNode.InsertNonFull | src/main.cpp:24-45 | the heap node ends up standing for `InsertNonFull(old, key)`; only new nodes join its footprint |
| BTreeImpl.BTreeNode.InsertIntoLeaf | src/main.cpp:28-31 | the leaf branch: the node stands for `InsertNonFull(old, key)` and owns no new nodes |
| BTreeImpl.BTreeNode.SplitThenInsert | src/main.cpp:34-43 | the branch with a full target child ends as `InsertNonFull(old, key)` |
| BTreeImpl.BTreeNode.SplitFor | src/main.cpp:34-40 | splits child `find_key + 1` and returns the child to descend into: `ci + 1` when `key` exceeds the promoted median, `ci` otherwise |
| BTreeImpl.BTreeNode.ChildAfterSplit | src/main.cpp:37-43 | the index after the optional `++index` step, plus one: `ci + 1` if `key > keys[ci]`, else `ci` |
| BTreeImpl.BTreeNode.InsertAfterSplit | src/main.cpp:43 | descending into the chosen child after the split completes `InsertNonFull` of the tree before the split |
| BTreeImpl.LemmaInsertNonFullBySplit | src/main.cpp:34-43 | after the split, the chosen child exists and is not full, and descending into it is `InsertNonFull` of the unsplit node |
| BTreeImpl.BTreeNode.Descend | src/main.cpp:43 | the branch with a target child that has room ends as `InsertNonFull(old, key)` |
| BTreeImpl.BTreeNode.InsertIntoChild | src/main.cpp:43 | `children[p]->insert_non_full(key)`: the node ends up standing for `InsertIntoChild(old, p, key)` |
| BTreeImpl.BTreeNode.Refresh | src/main.cpp:43 | after the child's in-place insertion only child `p` of the abstract node changes, and the footprint grows by the child's |
| BTreeImpl.BTreeNode.AddChild | src/main.cpp:123 | `push_back` of a child: the child vector and the abstract children gain it at the end |
| BTreeSpec.Empty | src/main.cpp:83-86 | the initial tree is a B-tree of height 0 holding no keys |
| BTreeImpl.BTree.constructor | src/main.cpp:83-86 | a new tree's root is one empty leaf; the tree holds no keys |
| BTreeSpec.SplitRoot | src/main.cpp:120-126 | the new root is internal, holds only the old root's median and has the two halves as children |
| BTreeProofs.LemmaSplitRoot | src/main.cpp:120-126 | splitting a full root keeps the B-tree invariant and the keys, leaves a non-full root and grows the height by one |
| BTreeImpl.SplitAbove | src/main.cpp:122-125 | a fresh internal node adopts the full root and splits it, and stands for `SplitRoot(old root)` |
| BTreeImpl.BTree.SetRoot | src/main.cpp:124 | the tree's root becomes the given node and the tree stands for that node's value |
| BTreeImpl.BTree.SplitRoot | src/main.cpp:120-126 | the tree stands for `SplitRoot(old)` and its root is no longer full |
| BTreeSpec.Insert | src/main.cpp:88-95 | the tree after `insert` is shaped |
| BTreeProofs.LemmaInsert | src/main.cpp:88-95 | `insert` keeps the B-tree invariant and adds exactly `key` to the stored multiset; the height grows by one exactly when the root was full |
| BTreeImpl.BTree.InsertAtRoot | src/main.cpp:94 | the tree stands for `InsertNonFull(old, key)` |
| BTreeImpl.BTree.Insert | src/main.cpp:88-95 | the tree stands for `Insert(old, key)`, still satisfies the B-tree invariant, and its keys are the old keys plus `key` |
| BTreeSpec.Search | src/main.cpp:97-117 | the descent of `exist` as a value (no contract of its own; `LemmaSearch` states that it answers true exactly for stored keys) |
| BTreeProofs.LemmaSearchStep | src/main.cpp:102-113 | when the key at `find_key` is not the key, the search of an internal node is the search of child `find_key + 1` |
| BTreeProofs.LemmaSearch | src/main.cpp:97-117 | on an ordered tree the search answers true exactly when the key is stored |
| BTreeImpl.LemmaDescend | src/main.cpp:102-113 | the child `index + 1` on `size_t` exists, is lower than the node and gives the same search answer |
| BTreeImpl.BTree.Exist | src/main.cpp:97-117 | the loop returns `Search(tree, key)`, which is true exactly when the key is stored in the tree |
| BTreeProofs.InsertAll | test/test_btree.py:9-10 | the tree after one `insert` per element of a sequence, in order; it stays shaped |
| BTreeProofs.LemmaInsertAll | test/test_btree.py:6-10 | inserting a sequence of keys one by one keeps the B-tree invariant and stores exactly the inserted keys |
| BTreeProofs.LemmaExistAfterInserts | test/test_btree.py:12-20 | after inserting a sequence into an empty tree, `exist(k)` holds exactly for the inserted keys |
| BTreeProofs.LemmaExistOneToEleven | test/test_btree.py:12-20 | after inserting 1..11 into an empty tree, every one of them exists and 0 does not |

## Left out

- Removal, height and size: `src/main.cpp` defines no such operations, so they are not modelled.
- The Python binding (`PYBIND11_MODULE`, `src/main.cpp:129-137`) and the timing script `test/performance.py`: they are glue and measurement, not tree logic.
- Keys are `int` rather than the `double` the binding instantiates. The source compares keys only with `>` (`src/main.cpp:37,69`) and `==` (`src/main.cpp:103`). The model's `<=` is the negation of `>`, which agrees with it only for a total order. So NaN and other floating-point corner cases are not modelled.
- Memory management: nodes are never freed in the source, and Dafny's heap is garbage collected, so leaks and destructors have no counterpart.
- BTreeImpl.BTree.Exist: the `node != nullptr` test of the loop is not modelled, because child vectors in the model have a non-null element type, so the loop only leaves by its two `return` statements and the final `return false` cannot be reached.
- BTreeImpl.BTreeNode.SplitChild: `split_child` takes an `int` index, so a `size_t` index above 2^31-1 would be truncated; indices here never exceed 5, so the index is a `nat`.
- BTreeImpl.BTreeNode.FindKey: requires fewer than 2^64 keys, so that the returned index fits `size_t` (`ToSizeT` requires its argument to be below 2^64). The C++ loop index is a 32-bit `int` (`src/main.cpp:68`), which holds `keys.size() - 1` only below 2^31 keys. That narrowing is not modelled, because a node never holds more than 5 keys.
