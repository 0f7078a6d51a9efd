/**
 * The classes of src/main.cpp on the heap. A `BTreeNode` owns its key vector
 * and its vector of child pointers; its ghost field `Tree` is the value the
 * node stands for and `Repr` is the set of nodes it owns. Each method is
 * proved to change `Tree` exactly as the matching function of BTreeSpec
 * does, so the lemmas of BTreeProofs carry over to the heap structure.
 */
module BTreeImpl {
  import opened BTreeSpec
  import opened BTreeProofs

  /** `size_t` values are taken modulo 2^64. */
  const SIZE_T_MODULUS: nat := 0x1_0000_0000_0000_0000

  /**
   * The conversion of `find_key`'s `int` index, which lies between -1 and the
   * key count, to `size_t`: -1 becomes the largest value.
   */
  function ToSizeT(x: int): (r: nat)
    requires -1 <= x < SIZE_T_MODULUS
    ensures r < SIZE_T_MODULUS
    ensures 0 <= x ==> r == x
    ensures x == -1 ==> r == SIZE_T_MODULUS - 1
  {
    if x == -1 then SIZE_T_MODULUS - 1 else x
  }

  /** `i + 1` on `size_t`: the largest value wraps around to 0. */
  function SizeTInc(i: nat): (r: nat)
    requires i < SIZE_T_MODULUS
    ensures r < SIZE_T_MODULUS
    ensures i + 1 < SIZE_T_MODULUS ==> r == i + 1
    ensures i + 1 == SIZE_T_MODULUS ==> r == 0
  {
    if i == SIZE_T_MODULUS - 1 then 0 else i + 1
  }

  /**
   * Both operations follow the C++ rule for unsigned arithmetic: converting
   * to `size_t` and adding on `size_t` take the mathematical result modulo
   * 2^64.
   */
  lemma LemmaSizeTModular(x: int, i: nat)
    requires -1 <= x < SIZE_T_MODULUS && i < SIZE_T_MODULUS
    ensures ToSizeT(x) == x % SIZE_T_MODULUS
    ensures SizeTInc(i) == (i + 1) % SIZE_T_MODULUS
  {
  }

  /** `find_key(key) + 1` on `size_t` is the `int` index plus one, for every index `find_key` can return. */
  lemma LemmaSizeTIncAfterFind(i: int)
    requires -1 <= i < SIZE_T_MODULUS - 1
    ensures SizeTInc(ToSizeT(i)) == i + 1
  {
  }

  /** Every node owned by one of the nodes `cs`. */
  ghost function ReprOf(cs: seq<BTreeNode>): set<object>
    reads set i | 0 <= i < |cs| :: cs[i]
  {
    set i, o | 0 <= i < |cs| && o in cs[i].Repr :: o
  }

  class BTreeNode {
    var isLeaf: bool
    var keys: seq<int>
    var children: seq<BTreeNode>

    ghost var Tree: Node
    ghost var Repr: set<object>

    /**
     * The fields agree with `Tree`, every child is valid and stands for the
     * matching child of `Tree`, and children own disjoint sets of nodes.
     */
    ghost predicate Valid()
      reads this, Repr
      decreases Repr
    {
      && this in Repr
      && Tree.isLeaf == isLeaf && Tree.keys == keys && |Tree.children| == |children|
      && (forall i :: 0 <= i < |children| ==>
            && children[i] in Repr
            && children[i].Repr <= Repr
            && this !in children[i].Repr
            && children[i].Valid()
            && children[i].Tree == Tree.children[i])
      && (forall i, j :: 0 <= i < j < |children| ==> children[i].Repr !! children[j].Repr)
    }

    /** `BTreeNode(is_leaf)`: a node with no keys and no children. */
    constructor(isLeaf: bool)
      ensures Valid() && fresh(Repr)
      ensures Tree == Node(isLeaf, [], [])
    {
      this.isLeaf := isLeaf;
      keys := [];
      children := [];
      Tree := Node(isLeaf, [], []);
      Repr := {this};
    }

    /** `is_full`. */
    function IsFull(): (r: bool)
      reads this, Repr
      requires Valid()
      ensures r <==> BTreeSpec.IsFull(Tree)
    {
      |keys| == MAX_KEYS
    }

    /**
     * `find_key`: the backward scan, returned as a `size_t`, so a key smaller
     * than every stored key yields the largest `size_t` value.
     */
    method FindKey(key: int) returns (index: nat)
      requires |keys| < SIZE_T_MODULUS
      ensures index == ToSizeT(BTreeSpec.FindKey(keys, key))
    {
      var i: int := |keys| - 1;
      while i >= 0 && keys[i] > key
        invariant -1 <= i < |keys|
        invariant forall j :: i < j < |keys| ==> key < keys[j]
      {
        i := i - 1;
      }
      LemmaFindKeyUnique(keys, key, i);
      index := ToSizeT(i);
    }

    /**
     * The new node of `split_child`: same kind as the full node `c`, holding
     * its last ORDER-1 keys and, when internal, its last ORDER children.
     */
    constructor UpperHalfOf(c: BTreeNode)
      requires c.Valid() && Shaped(c.Tree) && BTreeSpec.IsFull(c.Tree)
      ensures Valid() && Tree == UpperHalf(c.Tree)
      ensures children == if c.isLeaf then [] else c.children[ORDER..]
      ensures Repr <= c.Repr + {this} && c !in Repr
      ensures forall i :: 0 <= i < ORDER && i < |c.children| ==> Repr !! c.children[i].Repr
    {
      isLeaf := c.isLeaf;
      keys := c.keys[ORDER..];
      children := if c.isLeaf then [] else c.children[ORDER..];
      Tree := UpperHalf(c.Tree);
      Repr := {this} + ReprOf(if c.isLeaf then [] else c.children[ORDER..]);
      new;
      forall i | 0 <= i < |children|
        ensures children[i].Tree == Tree.children[i]
      {
        assert children[i] == c.children[ORDER + i];
      }
    }

    /** The truncation of `split_child`: a full node keeps its first ORDER-1 keys and ORDER children. */
    method KeepLowerHalf(ghost others: set<object>)
      requires Valid() && Shaped(Tree) && BTreeSpec.IsFull(Tree)
      requires this !in others
      requires forall i :: 0 <= i < ORDER && i < |children| ==> children[i].Repr !! others
      modifies this
      ensures Valid() && Tree == LowerHalf(old(Tree))
      ensures children == if isLeaf then [] else old(children)[..ORDER]
      ensures Repr <= old(Repr) && Repr !! others
    {
      ghost var cs := if isLeaf then children else children[..ORDER];
      ghost var r := {this} + ReprOf(cs);
      keys := keys[..ORDER - 1];
      if !isLeaf {
        children := children[..ORDER];
      }
      Tree, Repr := LowerHalf(Tree), r;
      forall i | 0 <= i < |cs|
        ensures cs[i].Valid() && cs[i].Repr == old(cs[i].Repr)
      {
        assert old(cs[i].Valid() && this !in cs[i].Repr);
      }
    }

    /**
     * The two halves of a full node: this node keeps the lower half, a new
     * node takes the upper half, and the median key is returned.
     */
    method SplitOff() returns (median: int, sibling: BTreeNode)
      requires Valid() && Shaped(Tree) && BTreeSpec.IsFull(Tree)
      modifies this
      ensures median == old(Tree).keys[ORDER - 1]
      ensures Valid() && Tree == LowerHalf(old(Tree)) && Repr <= old(Repr)
      ensures fresh(sibling) && sibling.Valid() && sibling.Tree == UpperHalf(old(Tree))
      ensures sibling.Repr <= old(Repr) + {sibling} && this !in sibling.Repr && Repr !! sibling.Repr
    {
      median := keys[ORDER - 1];
      sibling := new BTreeNode.UpperHalfOf(this);
      KeepLowerHalf(sibling.Repr);
      assert sibling.Valid() && sibling.Tree == UpperHalf(old(Tree));
    }

    /** `children.push_back(c)`: `c` becomes the last child. */
    method AddChild(c: BTreeNode)
      requires Valid() && c.Valid() && Repr !! c.Repr
      modifies this
      ensures Valid() && Repr == old(Repr) + c.Repr && children == old(children) + [c]
      ensures Tree == old(Tree).(children := old(Tree).children + [c.Tree])
    {
      ghost var oc := children;
      children, Tree, Repr := children + [c], Tree.(children := Tree.children + [c.Tree]), Repr + c.Repr;
      forall k | 0 <= k < |oc|
        ensures oc[k].Valid() && oc[k].Tree == old(oc[k].Tree) && oc[k].Repr == old(oc[k].Repr)
      {
        assert old(oc[k].Valid() && this !in oc[k].Repr);
      }
      assert children[|oc|] == c;
    }

    /**
     * The state between the two halves of `split_child(ci)`: child `ci` has
     * been cut down to its lower half, `sibling` holds the upper half, and
     * nothing else has changed.
     */
    ghost predicate ReadyToAdopt(ci: nat, sibling: BTreeNode)
      reads this, Repr, sibling, sibling.Repr
    {
      && this in Repr && Tree.isLeaf == isLeaf && Tree.keys == keys
      && |Tree.children| == |children| && ci <= |keys| && ci < |children|
      && Shaped(Tree.children[ci]) && BTreeSpec.IsFull(Tree.children[ci])
      && (forall i :: 0 <= i < |children| ==>
            && children[i] in Repr
            && children[i].Repr <= Repr
            && this !in children[i].Repr
            && children[i].Valid()
            && children[i].Tree == if i == ci then LowerHalf(Tree.children[ci]) else Tree.children[i])
      && (forall i, j :: 0 <= i < j < |children| ==> children[i].Repr !! children[j].Repr)
      && sibling.Valid() && sibling.Tree == UpperHalf(Tree.children[ci])
      && sibling.Repr <= Repr + {sibling} && this !in sibling.Repr
      && (forall i :: 0 <= i < |children| ==> children[i].Repr !! sibling.Repr)
    }

    /**
     * The last step of `split_child`: the median enters the key vector at
     * `ci` and `sibling` enters the child vector at `ci + 1`.
     */
    method Adopt(ci: nat, median: int, sibling: BTreeNode)
      requires ReadyToAdopt(ci, sibling)
      requires median == Tree.children[ci].keys[ORDER - 1]
      modifies this
      ensures Valid() && Repr == old(Repr) + {sibling}
      ensures Tree == BTreeSpec.SplitChild(old(Tree), ci)
    {
      ghost var oc, ot, oR := children, Tree, Repr;
      keys, children, Tree, Repr :=
        keys[..ci] + [median] + keys[ci..],
        children[..ci + 1] + [sibling] + children[ci + 1..],
        BTreeSpec.SplitChild(Tree, ci),
        Repr + {sibling};
      forall k | 0 <= k < |oc|
        ensures oc[k].Valid() && oc[k].Tree == old(oc[k].Tree) && oc[k].Repr == old(oc[k].Repr)
      {
        assert old(oc[k].Valid() && this !in oc[k].Repr);
      }
      LemmaAdoptedChildren(this, ci, sibling, oc, ot, oR);
      LemmaAdoptedDisjoint(this, ci, sibling, oc);
    }

    /**
     * `split_child(ci)`: the median of the full child `ci` moves into this
     * node, a new sibling takes the upper half of the child's keys and
     * children, and the child keeps the lower half.
     */
    method SplitChild(ci: nat)
      requires Valid()
      requires ci <= |keys| && ci < |children|
      requires Shaped(Tree.children[ci]) && BTreeSpec.IsFull(Tree.children[ci])
      modifies this, children[ci]
      ensures Valid() && fresh(Repr - old(Repr))
      ensures Tree == BTreeSpec.SplitChild(old(Tree), ci)
    {
      var child := children[ci];
      var median, sibling := child.SplitOff();
      forall k | 0 <= k < |children| && k != ci
        ensures children[k].Valid() && children[k].Tree == old(children[k].Tree)
        ensures children[k].Repr == old(children[k].Repr)
        ensures children[k].Repr !! child.Repr && children[k].Repr !! sibling.Repr
      {
        var n := children[k];
        assert old(n.Valid() && n in n.Repr && this !in n.Repr);
        if k < ci {
          assert old(n.Repr !! child.Repr);
        } else {
          assert old(child.Repr !! n.Repr);
        }
      }
      LemmaReadyToAdopt(this, ci, sibling);
      Adopt(ci, median, sibling);
    }

    /**
     * `insert_non_full(key)`: `find_key` gives a `size_t` index and the
     * target position is `index + 1`, taken modulo 2^64, so a key below every
     * stored key goes to position 0. A leaf takes the key there; an internal
     * node first splits a full target child, steps right when the key is
     * greater than the promoted median, and descends.
     */
    method InsertNonFull(key: int)
      requires Valid() && Shaped(Tree) && !BTreeSpec.IsFull(Tree)
      modifies Repr
      ensures Valid() && fresh(Repr - old(Repr))
      ensures Tree == BTreeSpec.InsertNonFull(old(Tree), key)
      decreases Height(Tree), 3
    {
      var index := FindKey(key);
      var pos := SizeTInc(index);
      LemmaSizeTIncAfterFind(BTreeSpec.FindKey(keys, key));
      if isLeaf {
        InsertIntoLeaf(pos, key);
      } else if children[pos].IsFull() {
        SplitThenInsert(index, key);
      } else {
        Descend(pos, key);
      }
    }

    /** The leaf branch of `insert_non_full`: the key enters the key vector at `pos`. */
    method InsertIntoLeaf(pos: nat, key: int)
      requires Valid() && Shaped(Tree) && !BTreeSpec.IsFull(Tree) && isLeaf
      requires pos == BTreeSpec.FindKey(keys, key) + 1
      modifies this
      ensures Valid() && Repr == old(Repr) && fresh(Repr - old(Repr))
      ensures Tree == BTreeSpec.InsertNonFull(old(Tree), key)
    {
      LemmaInsertNonFullLeaf(Tree, key);
      keys := keys[..pos] + [key] + keys[pos..];
      Tree := Tree.(keys := keys);
    }

    /**
     * The full-child branch of `insert_non_full`: split child `index + 1`,
     * then descend into the child `SplitFor` chooses.
     */
    method SplitThenInsert(index: nat, key: int)
      requires Valid() && Shaped(Tree) && !BTreeSpec.IsFull(Tree) && !isLeaf
      requires index == ToSizeT(BTreeSpec.FindKey(keys, key))
      requires BTreeSpec.IsFull(Tree.children[BTreeSpec.FindKey(keys, key) + 1])
      modifies Repr
      ensures Valid() && fresh(Repr - old(Repr))
      ensures Tree == BTreeSpec.InsertNonFull(old(Tree), key)
      decreases Height(Tree), 2
    {
      LemmaFullChild(Tree, BTreeSpec.FindKey(keys, key) + 1);
      var pos := SplitFor(index, key);
      InsertAfterSplit(pos, key, old(Tree));
    }

    /**
     * The descent of `insert_non_full` after the split of `t`'s full child
     * `ci`: this node now stands for `SplitChild(t, ci)` and `pos` is the
     * child `SplitFor` chose.
     */
    method InsertAfterSplit(pos: nat, key: int, ghost t: Node)
      requires Valid() && Shaped(Tree) && !isLeaf && SplitDone(t, key, pos)
      modifies Repr
      ensures Valid() && fresh(Repr - old(Repr))
      ensures Tree == BTreeSpec.InsertNonFull(t, key)
      decreases Height(Tree), 1
    {
      LemmaInsertNonFullBySplit(t, key, BTreeSpec.FindKey(t.keys, key) + 1, Tree, pos);
      InsertIntoChild(pos, key);
    }

    /**
     * This node stands for `t` after the split of its full child
     * `find_key(key) + 1`, and `pos` is the child the key descends into.
     */
    ghost predicate SplitDone(t: Node, key: int, pos: nat)
      reads this
    {
      && Shaped(t) && !BTreeSpec.IsFull(t) && !t.isLeaf
      && var ci := BTreeSpec.FindKey(t.keys, key) + 1;
      && FullChild(t, ci) && Tree == BTreeSpec.SplitChild(t, ci) && ci < |Tree.keys|
      && pos == if key > Tree.keys[ci] then ci + 1 else ci
    }

    /** The branch of `insert_non_full` whose target child `pos` is not full: descend into it. */
    method Descend(pos: nat, key: int)
      requires Valid() && Shaped(Tree) && !BTreeSpec.IsFull(Tree) && !isLeaf
      requires pos == BTreeSpec.FindKey(keys, key) + 1
      requires !BTreeSpec.IsFull(Tree.children[pos])
      modifies Repr
      ensures Valid() && fresh(Repr - old(Repr))
      ensures Tree == BTreeSpec.InsertNonFull(old(Tree), key)
      decreases Height(Tree), 2
    {
      InsertIntoChild(pos, key);
      LemmaInsertNonFullDescend(old(Tree), key);
    }

    /**
     * The split of `insert_non_full`: `split_child(index + 1)`, then `++index`
     * (modulo 2^64) when the key is greater than the promoted median; the
     * result is the new `index + 1`, the child to descend into.
     */
    method SplitFor(index: nat, key: int) returns (pos: nat)
      requires Valid() && Shaped(Tree) && !BTreeSpec.IsFull(Tree) && !isLeaf
      requires index == ToSizeT(BTreeSpec.FindKey(keys, key))
      requires FullChild(Tree, BTreeSpec.FindKey(keys, key) + 1)
      modifies this, children[BTreeSpec.FindKey(keys, key) + 1]
      ensures Valid() && fresh(Repr - old(Repr)) && Shaped(Tree) && !isLeaf
      ensures Height(Tree) == Height(old(Tree))
      ensures SplitDone(old(Tree), key, pos)
    {
      LemmaSizeTIncAfterFind(BTreeSpec.FindKey(keys, key));
      var ci := SizeTInc(index);
      assert ci == BTreeSpec.FindKey(keys, key) + 1;
      LemmaSplitChildShaped(Tree, ci);
      SplitChild(ci);
      pos := ChildAfterSplit(index, key);
    }

    /**
     * The choice after `split_child(index + 1)`: `++index` (modulo 2^64) when
     * the key is greater than the promoted median, and the child `index + 1`.
     */
    method ChildAfterSplit(index: nat, key: int) returns (pos: nat)
      requires |keys| < SIZE_T_MODULUS && index < SIZE_T_MODULUS && SizeTInc(index) < |keys|
      ensures var ci := SizeTInc(index); pos == if key > keys[ci] then ci + 1 else ci
    {
      var i := index;
      if key > keys[SizeTInc(i)] {
        i := SizeTInc(i);
      }
      pos := SizeTInc(i);
    }

    /** `children[p]->insert_non_full(key)`, with `Tree` and `Repr` brought up to date. */
    method InsertIntoChild(p: nat, key: int)
      requires Valid() && Shaped(Tree) && !isLeaf
      requires p < |children| && !BTreeSpec.IsFull(Tree.children[p])
      modifies Repr
      ensures Valid() && fresh(Repr - old(Repr))
      ensures Tree == BTreeSpec.InsertIntoChild(old(Tree), p, key)
      decreases Height(Tree), 0
    {
      var c := children[p];
      c.InsertNonFull(key);
      forall k | 0 <= k < |children| && k != p
        ensures children[k].Valid() && children[k].Tree == old(children[k].Tree)
        ensures children[k].Repr == old(children[k].Repr) && children[k].Repr !! c.Repr
      {
        var n := children[k];
        assert old(n.Valid() && n in n.Repr && this !in n.Repr);
        if k < p {
          assert old(n.Repr !! c.Repr);
        } else {
          assert old(c.Repr !! n.Repr);
        }
      }
      Refresh(p, c);
      LemmaInsertIntoChildStep(old(Tree), p, key);
    }

    /**
     * The state after `children[p]` has changed in place: every other child
     * is as before and owns no node of `c`.
     */
    ghost predicate ReadyToRefresh(p: nat, c: BTreeNode)
      reads this, Repr, c, c.Repr
    {
      && this in Repr && Tree.isLeaf == isLeaf && Tree.keys == keys
      && |Tree.children| == |children| && p < |children| && children[p] == c
      && (forall k :: 0 <= k < |children| ==> children[k] in Repr)
      && (forall k :: 0 <= k < |children| && k != p ==>
            && children[k].Repr <= Repr && this !in children[k].Repr
            && children[k].Valid() && children[k].Tree == Tree.children[k]
            && children[k].Repr !! c.Repr)
      && (forall i, j :: 0 <= i < j < |children| && i != p && j != p ==>
            children[i].Repr !! children[j].Repr)
      && c.Valid() && this !in c.Repr
    }

    /** Brings `Tree` and `Repr` up to date with the rebuilt child `p`. */
    method Refresh(p: nat, c: BTreeNode)
      requires ReadyToRefresh(p, c)
      modifies this
      ensures Valid() && Repr == old(Repr) + c.Repr
      ensures Tree == old(Tree).(children := old(Tree).children[p := c.Tree])
    {
      Tree, Repr := Tree.(children := Tree.children[p := c.Tree]), Repr + c.Repr;
      forall k | 0 <= k < |children|
        ensures children[k].Valid() && children[k].Tree == old(children[k].Tree)
        ensures children[k].Repr == old(children[k].Repr)
      {
        assert old(children[k].Valid() && this !in children[k].Repr);
      }
      LemmaChildReplaced(this, p);
    }
  }


  /**
   * `BTree`: the owner of the root node. `Tree` is the value the whole tree
   * stands for; it always satisfies the B-tree invariants.
   */
  class BTree {
    var root: BTreeNode

    ghost var Tree: Node
    ghost var Repr: set<object>

    ghost predicate Valid()
      reads this, Repr
    {
      && this in Repr && root in Repr && root.Repr <= Repr && this !in root.Repr
      && root.Valid() && root.Tree == Tree && IsBTree(Tree)
    }

    /** `BTree()`: the root is a new leaf, so the tree holds no key. */
    constructor()
      ensures Valid() && fresh(Repr)
      ensures Tree == Empty() && Keys(Tree) == multiset{}
    {
      root := new BTreeNode(true);
      Tree := Empty();
      new;
      Repr := {this} + root.Repr;
    }

    /**
     * `split_root`: a new internal root takes the full old root as its only
     * child and splits it, so the tree grows by one level.
     */
    method SplitRoot()
      requires Valid() && BTreeSpec.IsFull(Tree)
      modifies this, root
      ensures Valid() && fresh(Repr - old(Repr))
      ensures Tree == BTreeSpec.SplitRoot(old(Tree)) && !BTreeSpec.IsFull(Tree)
    {
      assert IsBTree(BTreeSpec.SplitRoot(Tree)) by {
        LemmaSplitRoot(Tree);
      }
      var newRoot := SplitAbove(root);
      SetRoot(newRoot);
    }

    /** `root = r` for a valid node `r` that no other part of the tree owns. */
    method SetRoot(r: BTreeNode)
      requires r.Valid() && IsBTree(r.Tree) && this !in r.Repr
      modifies this
      ensures Valid() && root == r && Tree == r.Tree && Repr == old(Repr) + {this} + r.Repr
    {
      root, Tree, Repr := r, r.Tree, Repr + {this} + r.Repr;
    }

    /**
     * `insert`: split a full root first, then insert into the root, which is
     * no longer full. The key is added once more, duplicates included.
     */
    method Insert(key: int)
      requires Valid()
      modifies Repr
      ensures Valid() && fresh(Repr - old(Repr))
      ensures Tree == BTreeSpec.Insert(old(Tree), key)
      ensures Keys(Tree) == Keys(old(Tree)) + multiset{key}
    {
      if root.IsFull() {
        SplitRoot();
      }
      InsertAtRoot(key);
      LemmaInsert(old(Tree), key);
    }

    /** `root->insert_non_full(key)` on a root that is not full. */
    method InsertAtRoot(key: int)
      requires Valid() && !BTreeSpec.IsFull(Tree)
      modifies Repr
      ensures Valid() && fresh(Repr - old(Repr))
      ensures Tree == BTreeSpec.InsertNonFull(old(Tree), key)
    {
      assert IsBTree(BTreeSpec.InsertNonFull(Tree, key)) by {
        LemmaInsertNonFullRoot(Tree, key);
      }
      root.InsertNonFull(key);
      Tree, Repr := root.Tree, Repr + root.Repr;
    }

    /**
     * `exist`: the descent from the root. At each node `find_key` gives a
     * `size_t` index; the key is found when that index is in range and holds
     * the key, absent at a leaf, and otherwise looked for in child
     * `index + 1`, modulo 2^64.
     */
    method Exist(key: int) returns (found: bool)
      requires Valid()
      ensures found == Search(Tree, key)
      ensures found <==> key in Keys(Tree)
    {
      LemmaSearch(Tree, key);
      var node := root;
      while true
        invariant node.Valid() && Shaped(node.Tree)
        invariant Search(node.Tree, key) == Search(Tree, key)
        decreases Height(node.Tree)
      {
        var index := node.FindKey(key);
        if index < |node.keys| && node.keys[index] == key {
          return true;
        } else if node.isLeaf {
          return false;
        } else {
          LemmaDescend(node, key);
          node := node.children[SizeTInc(index)];
        }
      }
    }
  }

  /**
   * The node work of `split_root`: a new internal node whose only child is
   * the full node `r`, followed by `split_child(0)` on it.
   */
  method SplitAbove(r: BTreeNode) returns (newRoot: BTreeNode)
    requires r.Valid() && Shaped(r.Tree) && BTreeSpec.IsFull(r.Tree)
    modifies r
    ensures fresh(newRoot) && newRoot.Valid() && fresh(newRoot.Repr - old(r.Repr))
    ensures newRoot.Tree == BTreeSpec.SplitRoot(old(r.Tree))
  {
    newRoot := new BTreeNode(false);
    newRoot.AddChild(r);
    newRoot.SplitChild(0);
  }

  /**
   * One step of the descent of `exist` at an internal node that does not
   * hold the key: child `find_key(key) + 1`, taken modulo 2^64, is a valid
   * lower node whose search gives the same answer.
   */
  lemma LemmaDescend(n: BTreeNode, key: int)
    requires n.Valid() && Shaped(n.Tree) && !n.isLeaf
    requires var index := ToSizeT(BTreeSpec.FindKey(n.keys, key));
      !(index < |n.keys| && n.keys[index] == key)
    ensures var pos := SizeTInc(ToSizeT(BTreeSpec.FindKey(n.keys, key)));
      && pos == BTreeSpec.FindKey(n.keys, key) + 1 && pos < |n.children|
      && n.children[pos].Valid() && Shaped(n.children[pos].Tree)
      && Height(n.children[pos].Tree) < Height(n.Tree)
      && Search(n.children[pos].Tree, key) == Search(n.Tree, key)
  {
    var i := BTreeSpec.FindKey(n.keys, key);
    LemmaSizeTIncAfterFind(i);
    LemmaSearchStep(n.Tree, key);
  }

  /** Child `ci` of `n` is full and `split_child(ci)` applies to it. */
  ghost predicate FullChild(n: Node, ci: nat) {
    && ci <= |n.keys| && ci < |n.children| && IsFull(n.children[ci])
    && (!n.children[ci].isLeaf ==> |n.children[ci].children| == MAX_KEYS + 1)
  }

  /** In a shaped internal node, a full child can be split. */
  lemma LemmaFullChild(n: Node, ci: nat)
    requires Shaped(n) && !n.isLeaf && ci < |n.children| && IsFull(n.children[ci])
    ensures FullChild(n, ci)
  {
    assert Shaped(n.children[ci]);
  }

  /** One unfolding of `InsertIntoChild`. */
  lemma LemmaInsertIntoChildStep(n: Node, p: nat, key: int)
    requires Shaped(n) && !n.isLeaf && p < |n.children| && !IsFull(n.children[p])
    ensures BTreeSpec.InsertIntoChild(n, p, key)
      == n.(children := n.children[p := BTreeSpec.InsertNonFull(n.children[p], key)])
  {
  }

  /**
   * A node whose child `p` has been rebuilt in place is valid again once the
   * other children are untouched and the new nodes of child `p` are owned by
   * nobody else.
   */
  lemma LemmaChildReplaced(n: BTreeNode, p: nat)
    requires n in n.Repr && n.Tree.isLeaf == n.isLeaf && n.Tree.keys == n.keys
    requires |n.Tree.children| == |n.children| && p < |n.children|
    requires forall k :: 0 <= k < |n.children| ==>
      && n.children[k] in n.Repr && n.children[k].Repr <= n.Repr && n !in n.children[k].Repr
    requires forall k :: 0 <= k < |n.children| && k != p ==>
      && n.children[k].Valid() && n.children[k].Tree == n.Tree.children[k]
      && n.children[k].Repr !! n.children[p].Repr
    requires forall i, j :: 0 <= i < j < |n.children| && i != p && j != p ==>
      n.children[i].Repr !! n.children[j].Repr
    requires n.children[p].Valid() && n.children[p].Tree == n.Tree.children[p]
    ensures n.Valid()
  {
    forall i, j | 0 <= i < j < |n.children|
      ensures n.children[i].Repr !! n.children[j].Repr
    {
      if i == p || j == p {
      }
    }
  }

  /** `InsertNonFull` on a leaf: the leaf insertion of the key. */
  lemma LemmaInsertNonFullLeaf(n: Node, key: int)
    requires Shaped(n) && !IsFull(n) && n.isLeaf
    ensures BTreeSpec.InsertNonFull(n, key) == n.(keys := InsertKey(n.keys, key))
  {
  }

  /** `InsertNonFull` on an internal node whose target child is full: split, then insert. */
  lemma LemmaInsertNonFullSplit(n: Node, key: int)
    requires Shaped(n) && !IsFull(n) && !n.isLeaf
    requires IsFull(n.children[BTreeSpec.FindKey(n.keys, key) + 1])
    ensures BTreeSpec.InsertNonFull(n, key)
      == BTreeSpec.SplitThenInsert(n, BTreeSpec.FindKey(n.keys, key) + 1, key)
  {
  }

  /** `InsertNonFull` on an internal node whose target child is not full: descend. */
  lemma LemmaInsertNonFullDescend(n: Node, key: int)
    requires Shaped(n) && !IsFull(n) && !n.isLeaf
    requires !IsFull(n.children[BTreeSpec.FindKey(n.keys, key) + 1])
    ensures BTreeSpec.InsertNonFull(n, key)
      == BTreeSpec.InsertIntoChild(n, BTreeSpec.FindKey(n.keys, key) + 1, key)
  {
  }

  /**
   * `InsertNonFull` on an internal node whose target child `ci` is full:
   * insert into child `ci` or `ci + 1` of `SplitChild(n, ci)`, by the median.
   */
  lemma LemmaInsertNonFullBySplit(n: Node, key: int, ci: nat, s: Node, pos: nat)
    requires Shaped(n) && !IsFull(n) && !n.isLeaf
    requires ci == BTreeSpec.FindKey(n.keys, key) + 1 && FullChild(n, ci)
    requires s == BTreeSpec.SplitChild(n, ci) && ci < |s.keys|
    requires pos == if key > s.keys[ci] then ci + 1 else ci
    ensures pos < |s.children| && Shaped(s) && !s.isLeaf && !IsFull(s.children[pos])
    ensures BTreeSpec.InsertNonFull(n, key) == BTreeSpec.InsertIntoChild(s, pos, key)
  {
    assert BTreeSpec.InsertNonFull(n, key) == BTreeSpec.SplitThenInsert(n, ci, key) by {
      LemmaInsertNonFullSplit(n, key);
    }
    LemmaSplitThenInsertStep(n, ci, key);
  }

  /** One unfolding of `SplitThenInsert`, with the split named. */
  lemma LemmaSplitThenInsertStep(n: Node, ci: nat, key: int)
    requires Shaped(n) && !IsFull(n) && !n.isLeaf
    requires ci < |n.children| && IsFull(n.children[ci])
    ensures ci <= |n.keys|
    ensures !n.children[ci].isLeaf ==> |n.children[ci].children| == MAX_KEYS + 1
    ensures var s := BTreeSpec.SplitChild(n, ci);
      && Shaped(s) && !s.isLeaf && ci + 1 < |s.children| && ci < |s.keys|
      && !IsFull(s.children[ci]) && !IsFull(s.children[ci + 1])
      && BTreeSpec.SplitThenInsert(n, ci, key)
         == BTreeSpec.InsertIntoChild(s, if key > s.keys[ci] then ci + 1 else ci, key)
  {
    LemmaSplitChildShaped(n, ci);
  }

  /** The child vector of `n` after `Adopt`: `oc` with `sibling` inserted after position `ci`. */
  ghost predicate AdoptedChildren(n: BTreeNode, ci: nat, sibling: BTreeNode, oc: seq<BTreeNode>)
    reads n
  {
    ci < |oc| && n.children == oc[..ci + 1] + [sibling] + oc[ci + 1..]
  }

  /**
   * The node `n` of `Adopt`, seen in one heap: every child is valid and
   * stands for the matching child of `SplitChild(ot, ci)`.
   */
  lemma LemmaAdoptedChildren(n: BTreeNode, ci: nat, sibling: BTreeNode, oc: seq<BTreeNode>, ot: Node, oR: set<object>)
    requires AdoptedChildren(n, ci, sibling, oc)
    requires ci <= |ot.keys| && |ot.children| == |oc|
    requires Shaped(ot.children[ci]) && BTreeSpec.IsFull(ot.children[ci])
    requires n.Tree == BTreeSpec.SplitChild(ot, ci) && n.Repr == oR + {sibling}
    requires forall k :: 0 <= k < |oc| ==>
      && oc[k] in oR && oc[k].Repr <= oR && n !in oc[k].Repr && oc[k].Valid()
      && oc[k].Tree == if k == ci then LowerHalf(ot.children[ci]) else ot.children[k]
    requires sibling.Valid() && sibling.Tree == UpperHalf(ot.children[ci])
    requires sibling.Repr <= oR + {sibling} && n !in sibling.Repr
    ensures forall i :: 0 <= i < |n.children| ==>
      && n.children[i] in n.Repr && n.children[i].Repr <= n.Repr && n !in n.children[i].Repr
      && n.children[i].Valid() && n.children[i].Tree == n.Tree.children[i]
  {
    var cs := n.children;
    forall i | 0 <= i < |cs|
      ensures cs[i] in n.Repr && cs[i].Repr <= n.Repr && n !in cs[i].Repr
      ensures cs[i].Valid() && cs[i].Tree == n.Tree.children[i]
    {
      LemmaSplitChildAt(ot, ci, i);
      if i < ci {
        assert cs[i] == oc[i];
      } else if i == ci + 1 {
        assert cs[i] == sibling;
      } else if ci + 1 < i {
        assert cs[i] == oc[i - 1];
      } else {
        assert cs[i] == oc[ci];
      }
    }
  }

  /** After `Adopt` the children of `n` still own disjoint sets of nodes. */
  lemma LemmaAdoptedDisjoint(n: BTreeNode, ci: nat, sibling: BTreeNode, oc: seq<BTreeNode>)
    requires AdoptedChildren(n, ci, sibling, oc)
    requires forall i, j :: 0 <= i < j < |oc| ==> oc[i].Repr !! oc[j].Repr
    requires forall k :: 0 <= k < |oc| ==> oc[k].Repr !! sibling.Repr
    ensures forall i, j :: 0 <= i < j < |n.children| ==> n.children[i].Repr !! n.children[j].Repr
  {
    var cs := n.children;
    forall i, j | 0 <= i < j < |cs|
      ensures cs[i].Repr !! cs[j].Repr
    {
      if j == ci + 1 {
        assert cs[j] == sibling && cs[i] == oc[i];
      } else if i == ci + 1 {
        assert cs[i] == sibling && cs[j] == oc[j - 1];
      } else {
        var ki := if i <= ci then i else i - 1;
        var kj := if j <= ci then j else j - 1;
        assert cs[i] == oc[ki] && cs[j] == oc[kj];
      }
    }
  }

  /** The facts `split_child` has gathered once both halves exist, packed as `ReadyToAdopt`. */
  lemma LemmaReadyToAdopt(n: BTreeNode, ci: nat, sibling: BTreeNode)
    requires n in n.Repr && n.Tree.isLeaf == n.isLeaf && n.Tree.keys == n.keys
    requires |n.Tree.children| == |n.children| && ci <= |n.keys| && ci < |n.children|
    requires Shaped(n.Tree.children[ci]) && BTreeSpec.IsFull(n.Tree.children[ci])
    requires forall k :: 0 <= k < |n.children| ==>
      && n.children[k] in n.Repr && n.children[k].Repr <= n.Repr && n !in n.children[k].Repr
    requires forall k :: 0 <= k < |n.children| && k != ci ==>
      && n.children[k].Valid() && n.children[k].Tree == n.Tree.children[k]
      && n.children[k].Repr !! n.children[ci].Repr && n.children[k].Repr !! sibling.Repr
    requires forall i, j :: 0 <= i < j < |n.children| && i != ci && j != ci ==>
      n.children[i].Repr !! n.children[j].Repr
    requires n.children[ci].Valid() && n.children[ci].Tree == LowerHalf(n.Tree.children[ci])
    requires n.children[ci].Repr !! sibling.Repr
    requires sibling.Valid() && sibling.Tree == UpperHalf(n.Tree.children[ci])
    requires sibling.Repr <= n.Repr + {sibling} && n !in sibling.Repr
    ensures n.ReadyToAdopt(ci, sibling)
  {
    forall i, j | 0 <= i < j < |n.children|
      ensures n.children[i].Repr !! n.children[j].Repr
    {
      if i == ci || j == ci {
      }
    }
  }
}
