/**
 * The B-tree of src/main.cpp as a value: a node is its leaf flag, its sorted
 * key vector and (for an internal node) its child vector. The operations of
 * the C++ classes are restated here as functions over these values; the heap
 * classes in module BTreeImpl are proved to compute exactly these functions,
 * and the lemmas of this module say what the functions guarantee.
 */
module BTreeSpec {

  /** The branching parameter, `ORDER` in the source. */
  const ORDER: nat := 3
  /** A node holding this many keys is full (`is_full`). */
  const MAX_KEYS: nat := 2 * ORDER - 1
  /** Every node other than the root holds at least this many keys. */
  const MIN_KEYS: nat := ORDER - 1

  datatype Node = Node(isLeaf: bool, keys: seq<int>, children: seq<Node>)

  // ---------------------------------------------------------------------------
  // Abstract contents and invariants
  // ---------------------------------------------------------------------------

  ghost predicate Sorted(s: seq<int>) {
    forall i, j :: 0 <= i < j < |s| ==> s[i] <= s[j]
  }

  /** Every key stored in the subtree rooted at `n`, with multiplicity. */
  function Keys(n: Node): multiset<int>
    decreases n
  {
    multiset(n.keys) + KeysOf(n.children)
  }

  /** Every key stored in the subtrees `cs`, with multiplicity. */
  function KeysOf(cs: seq<Node>): multiset<int>
    decreases cs
  {
    if cs == [] then multiset{} else KeysOf(cs[..|cs| - 1]) + Keys(cs[|cs| - 1])
  }

  /** Length of the leftmost path; on a shaped tree, the depth of every leaf. */
  function Height(n: Node): nat
    decreases n
  {
    if n.isLeaf || n.children == [] then 0 else 1 + Height(n.children[0])
  }

  /**
   * The structural invariant: at most MAX_KEYS keys, no children in a leaf,
   * one child more than keys in an internal node, and all children one level
   * lower (so every leaf lies at the same depth).
   */
  ghost predicate Shaped(n: Node)
    decreases n
  {
    && |n.keys| <= MAX_KEYS
    && (n.isLeaf ==> n.children == [])
    && (!n.isLeaf ==>
          && |n.children| == |n.keys| + 1
          && forall i :: 0 <= i < |n.children| ==>
               Shaped(n.children[i]) && Height(n.children[i]) + 1 == Height(n))
  }

  /**
   * The fill invariant below a node: every node of the subtree other than `n`
   * itself holds at least MIN_KEYS keys.
   */
  ghost predicate Filled(n: Node)
    decreases n
  {
    forall i :: 0 <= i < |n.children| ==> MIN_KEYS <= |n.children[i].keys| && Filled(n.children[i])
  }

  ghost predicate AllAtLeast(m: multiset<int>, lo: int) {
    forall x :: x in m ==> lo <= x
  }

  ghost predicate AllAtMost(m: multiset<int>, hi: int) {
    forall x :: x in m ==> x <= hi
  }

  /**
   * The multiset `m` fits slot `i` of the key vector: between `keys[i-1]` and
   * `keys[i]`, inclusively on both sides since duplicate keys are allowed.
   */
  ghost predicate InSlot(keys: seq<int>, i: nat, m: multiset<int>) {
    && (0 < i <= |keys| ==> AllAtLeast(m, keys[i - 1]))
    && (i < |keys| ==> AllAtMost(m, keys[i]))
  }

  /** Every key of child `i` fits slot `i` of the node's keys. */
  ghost predicate SeparatedChild(n: Node, i: nat)
    requires i < |n.children|
  {
    InSlot(n.keys, i, Keys(n.children[i]))
  }

  /** The search-tree invariant: sorted keys in every node and separated children. */
  ghost predicate Ordered(n: Node)
    decreases n
  {
    && Sorted(n.keys)
    && (forall i {:trigger Ordered(n.children[i])} :: 0 <= i < |n.children| ==> Ordered(n.children[i]))
    && (forall i {:trigger SeparatedChild(n, i)} :: 0 <= i < |n.children| ==> SeparatedChild(n, i))
  }

  /** The whole invariant of a tree's root; an internal root holds at least one key. */
  ghost predicate IsBTree(root: Node) {
    Shaped(root) && Filled(root) && Ordered(root) && (!root.isLeaf ==> 1 <= |root.keys|)
  }

  // ---------------------------------------------------------------------------
  // Operations of BTreeNode
  // ---------------------------------------------------------------------------

  /** `is_full`: the node holds 2*ORDER-1 keys. */
  predicate IsFull(n: Node) {
    |n.keys| == MAX_KEYS
  }

  /**
   * `find_key`: the backward scan of the key vector; the rightmost index whose
   * key is <= `key`, or -1 when every key is greater.
   */
  function FindKey(keys: seq<int>, key: int): (r: int)
    ensures -1 <= r < |keys|
    ensures 0 <= r ==> keys[r] <= key
    ensures forall j :: r < j < |keys| ==> key < keys[j]
  {
    if |keys| == 0 then -1
    else if keys[|keys| - 1] <= key then |keys| - 1
    else FindKey(keys[..|keys| - 1], key)
  }

  /**
   * The key vector after the leaf insertion at position `find_key(key) + 1`:
   * the key goes after every key that is <= it, so after every equal key.
   */
  function InsertKey(keys: seq<int>, key: int): (r: seq<int>)
    ensures |r| == |keys| + 1
    ensures var p := FindKey(keys, key) + 1;
      && r[p] == key
      && (forall j :: 0 <= j < p ==> r[j] == keys[j])
      && (forall j :: p < j < |r| ==> r[j] == keys[j - 1] && key < r[j])
    ensures multiset(r) == multiset(keys) + multiset{key}
  {
    var p := FindKey(keys, key) + 1;
    var r := keys[..p] + [key] + keys[p..];
    assert forall j :: 0 <= j < p ==> r[j] == keys[j];
    assert forall j :: p < j < |r| ==> r[j] == keys[j - 1];
    assert forall j :: p < j < |r| ==> key < r[j];
    assert multiset(r) == multiset(keys) + multiset{key} by {
      assert keys == keys[..p] + keys[p..];
    }
    r
  }

  /** On a sorted vector the leaf insertion keeps the vector sorted. */
  lemma LemmaInsertKeySorted(keys: seq<int>, key: int)
    requires Sorted(keys)
    ensures Sorted(InsertKey(keys, key))
  {
    var r := InsertKey(keys, key);
    var p := FindKey(keys, key) + 1;
    forall a, b | 0 <= a < b < |r| ensures r[a] <= r[b] {
      if b < p {
        assert r[a] == keys[a] && r[b] == keys[b];
      } else if b == p {
        assert r[a] == keys[a] && keys[a] <= keys[p - 1];
      } else if a < p {
        assert r[a] == keys[a] && r[b] == keys[b - 1];
      } else if a > p {
        assert r[a] == keys[a - 1] && r[b] == keys[b - 1];
      }
    }
  }

  /** Lower half of a full node: its first ORDER-1 keys and first ORDER children. */
  function LowerHalf(c: Node): Node
    requires IsFull(c) && (!c.isLeaf ==> |c.children| == MAX_KEYS + 1)
  {
    Node(c.isLeaf, c.keys[..ORDER - 1], if c.isLeaf then c.children else c.children[..ORDER])
  }

  /** Upper half of a full node: a new node of the same kind with the last ORDER-1 keys and ORDER children. */
  function UpperHalf(c: Node): Node
    requires IsFull(c) && (!c.isLeaf ==> |c.children| == MAX_KEYS + 1)
  {
    Node(c.isLeaf, c.keys[ORDER..], if c.isLeaf then [] else c.children[ORDER..])
  }

  /**
   * `split_child(ci)`: the median of the full child `ci` moves up to position
   * `ci` of this node, the child keeps its lower half and the new sibling,
   * inserted at `ci + 1`, takes the upper half.
   */
  function SplitChild(n: Node, ci: nat): Node
    requires ci <= |n.keys| && ci < |n.children|
    requires IsFull(n.children[ci])
    requires !n.children[ci].isLeaf ==> |n.children[ci].children| == MAX_KEYS + 1
  {
    var child := n.children[ci];
    Node(n.isLeaf,
         n.keys[..ci] + [child.keys[ORDER - 1]] + n.keys[ci..],
         n.children[..ci] + [LowerHalf(child), UpperHalf(child)] + n.children[ci + 1..])
  }

  /**
   * Where `split_child(ci)` puts every key and child, stated at position `j`:
   * the median of child `ci` at key position `ci`, the two halves at child
   * positions `ci` and `ci + 1`, everything before unchanged and everything
   * after shifted right by one.
   */
  lemma LemmaSplitChildAt(n: Node, ci: nat, j: nat)
    requires ci <= |n.keys| && ci < |n.children|
    requires IsFull(n.children[ci])
    requires !n.children[ci].isLeaf ==> |n.children[ci].children| == MAX_KEYS + 1
    ensures var r := SplitChild(n, ci);
      && r.isLeaf == n.isLeaf
      && |r.keys| == |n.keys| + 1 && |r.children| == |n.children| + 1
      && (j < |r.keys| ==>
            r.keys[j] == if j < ci then n.keys[j]
                         else if j == ci then n.children[ci].keys[ORDER - 1]
                         else n.keys[j - 1])
      && (j < |r.children| ==>
            r.children[j] == if j < ci then n.children[j]
                             else if j == ci then LowerHalf(n.children[ci])
                             else if j == ci + 1 then UpperHalf(n.children[ci])
                             else n.children[j - 1])
  {
  }

  /**
   * `insert_non_full`: insert into a leaf at `find_key(key) + 1`; in an internal
   * node split the target child first if it is full, step right when the key
   * exceeds the promoted median, and descend.
   */
  function InsertNonFull(n: Node, key: int): (r: Node)
    requires Shaped(n) && !IsFull(n)
    ensures Shaped(r) && Height(r) == Height(n) && r.isLeaf == n.isLeaf && |r.keys| >= |n.keys|
    decreases Height(n), 2
  {
    var i := FindKey(n.keys, key);
    if n.isLeaf then
      n.(keys := InsertKey(n.keys, key))
    else if IsFull(n.children[i + 1]) then
      SplitThenInsert(n, i + 1, key)
    else
      InsertIntoChild(n, i + 1, key)
  }

  /**
   * The full-child branch of `insert_non_full`: split child `ci`, then descend
   * into its lower half, or into the new sibling when `key` exceeds the median.
   */
  function SplitThenInsert(n: Node, ci: nat, key: int): (r: Node)
    requires Shaped(n) && !IsFull(n) && !n.isLeaf
    requires ci < |n.children| && IsFull(n.children[ci])
    ensures Shaped(r) && Height(r) == Height(n) && !r.isLeaf && |r.keys| == |n.keys| + 1
    decreases Height(n), 1
  {
    LemmaSplitChildShaped(n, ci);
    var s := SplitChild(n, ci);
    InsertIntoChild(s, if key > s.keys[ci] then ci + 1 else ci, key)
  }

  /** The descent step of `insert_non_full`: `children[p]->insert_non_full(key)`. */
  function InsertIntoChild(n: Node, p: nat, key: int): (r: Node)
    requires Shaped(n) && !n.isLeaf && p < |n.children| && !IsFull(n.children[p])
    ensures Shaped(r) && Height(r) == Height(n) && !r.isLeaf && |r.keys| == |n.keys|
    decreases Height(n), 0
  {
    var c := InsertNonFull(n.children[p], key);
    LemmaReplaceChildShaped(n, p, c);
    n.(children := n.children[p := c])
  }

  /** Replacing a child by a shaped node of the same height keeps the node shaped. */
  lemma LemmaReplaceChildShaped(n: Node, i: nat, c: Node)
    requires Shaped(n) && !n.isLeaf && i < |n.children|
    requires Shaped(c) && Height(c) == Height(n.children[i])
    ensures Shaped(n.(children := n.children[i := c]))
    ensures Height(n.(children := n.children[i := c])) == Height(n)
  {
    var r := n.(children := n.children[i := c]);
    assert Height(r) == 1 + Height(r.children[0]);
    forall k | 0 <= k < |r.children| ensures Shaped(r.children[k]) && Height(r.children[k]) + 1 == Height(r) {
      if k != i {
        assert r.children[k] == n.children[k];
      }
    }
  }

  // ---------------------------------------------------------------------------
  // Operations of BTree
  // ---------------------------------------------------------------------------

  /** The tree of the constructor: one empty leaf. */
  function Empty(): (r: Node)
    ensures IsBTree(r) && Keys(r) == multiset{} && Height(r) == 0
  {
    Node(true, [], [])
  }

  /**
   * `split_root`: a new internal root whose only child is the full old root,
   * followed by `split_child(0)`.
   */
  function SplitRoot(root: Node): (r: Node)
    requires IsFull(root) && (!root.isLeaf ==> |root.children| == MAX_KEYS + 1)
    ensures !r.isLeaf && r.keys == [root.keys[ORDER - 1]]
    ensures r.children == [LowerHalf(root), UpperHalf(root)]
  {
    var r := SplitChild(Node(false, [], [root]), 0);
    LemmaSplitChildAt(Node(false, [], [root]), 0, 0);
    LemmaSplitChildAt(Node(false, [], [root]), 0, 1);
    r
  }

  /** `insert`: split a full root, then insert into the (now non-full) root. */
  function Insert(root: Node, key: int): (r: Node)
    requires Shaped(root)
    ensures Shaped(r)
  {
    if IsFull(root) then
      LemmaSplitRootShaped(root);
      InsertNonFull(SplitRoot(root), key)
    else
      InsertNonFull(root, key)
  }

  /**
   * `exist`: at each node take `find_key(key)`; stop with true when that key
   * equals `key`, with false at a leaf, else descend into child `index + 1`.
   */
  function Search(n: Node, key: int): bool
    requires Shaped(n)
    decreases n
  {
    var i := FindKey(n.keys, key);
    if 0 <= i && n.keys[i] == key then true
    else if n.isLeaf then false
    else Search(n.children[i + 1], key)
  }

  // ---------------------------------------------------------------------------
  // Lemmas: split_child keeps the shape (needed by InsertNonFull and Insert)
  // ---------------------------------------------------------------------------

  lemma LemmaHalvesShaped(c: Node)
    requires Shaped(c) && IsFull(c)
    ensures Shaped(LowerHalf(c)) && Height(LowerHalf(c)) == Height(c)
    ensures Shaped(UpperHalf(c)) && Height(UpperHalf(c)) == Height(c)
  {
    var lo, hi := LowerHalf(c), UpperHalf(c);
    if !c.isLeaf {
      assert lo.children[0] == c.children[0];
      assert hi.children[0] == c.children[ORDER];
      forall k | 0 <= k < |hi.children|
        ensures Shaped(hi.children[k]) && Height(hi.children[k]) + 1 == Height(hi)
      {
        assert hi.children[k] == c.children[ORDER + k];
      }
    }
  }

  lemma LemmaSplitChildShaped(n: Node, ci: nat)
    requires Shaped(n) && !IsFull(n)
    requires ci < |n.children| && IsFull(n.children[ci])
    ensures ci <= |n.keys|
    ensures n.children[ci].isLeaf ==> n.children[ci].children == []
    ensures !n.children[ci].isLeaf ==> |n.children[ci].children| == MAX_KEYS + 1
    ensures var s := SplitChild(n, ci);
      && Shaped(s) && Height(s) == Height(n) && s.isLeaf == n.isLeaf
      && |s.keys| == |n.keys| + 1 && |s.children| == |n.children| + 1
      && !IsFull(s.children[ci]) && !IsFull(s.children[ci + 1])
  {
    var child := n.children[ci];
    var s := SplitChild(n, ci);
    LemmaSplitChildAt(n, ci, 0);
    LemmaSplitChildAt(n, ci, ci);
    LemmaSplitChildAt(n, ci, ci + 1);
    LemmaHalvesShaped(child);
    forall k | 0 <= k < |s.children|
      ensures Shaped(s.children[k]) && Height(s.children[k]) + 1 == Height(s)
    {
      LemmaSplitChildAt(n, ci, k);
    }
  }

  lemma LemmaSplitRootShaped(root: Node)
    requires Shaped(root) && IsFull(root)
    ensures !root.isLeaf ==> |root.children| == MAX_KEYS + 1
    ensures Shaped(SplitRoot(root)) && !IsFull(SplitRoot(root))
    ensures Height(SplitRoot(root)) == Height(root) + 1
  {
    var wrapper := Node(false, [], [root]);
    LemmaSplitChildShaped(wrapper, 0);
  }
}
