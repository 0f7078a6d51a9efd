/**
 * What insertion and lookup guarantee about the B-tree values of BTreeSpec:
 * splitting and inserting keep every invariant, insertion adds exactly one
 * occurrence of the key, and the lookup descent finds a key exactly when the
 * tree holds it.
 */
module BTreeProofs {
  import opened BTreeSpec

  // ---------------------------------------------------------------------------
  // Key multisets of child vectors
  // ---------------------------------------------------------------------------

  lemma {:induction false} LemmaKeysOfConcat(a: seq<Node>, b: seq<Node>)
    ensures KeysOf(a + b) == KeysOf(a) + KeysOf(b)
    decreases |b|
  {
    if b != [] {
      assert (a + b)[..|a + b| - 1] == a + b[..|b| - 1];
      LemmaKeysOfConcat(a, b[..|b| - 1]);
    } else {
      assert a + b == a;
    }
  }

  lemma LemmaKeysOfSingle(c: Node)
    ensures KeysOf([c]) == Keys(c)
  {
    assert [c][..0] == [];
  }

  lemma LemmaKeysOfSplice(pre: seq<Node>, mid: seq<Node>, post: seq<Node>)
    ensures KeysOf(pre + mid + post) == KeysOf(pre) + KeysOf(mid) + KeysOf(post)
  {
    LemmaKeysOfConcat(pre + mid, post);
    LemmaKeysOfConcat(pre, mid);
  }

  lemma LemmaSplitSeq<T>(s: seq<T>, i: nat)
    requires i < |s|
    ensures s == s[..i] + [s[i]] + s[i + 1..]
  {
  }

  /** The keys of a child vector, split around position `i`. */
  lemma LemmaKeysOfAt(cs: seq<Node>, i: nat)
    requires i < |cs|
    ensures KeysOf(cs) == KeysOf(cs[..i]) + Keys(cs[i]) + KeysOf(cs[i + 1..])
  {
    LemmaSplitSeq(cs, i);
    LemmaKeysOfSplice(cs[..i], [cs[i]], cs[i + 1..]);
    LemmaKeysOfSingle(cs[i]);
  }

  /** The keys of child `i` are keys of the node. */
  lemma LemmaChildKeys(n: Node, i: nat)
    requires i < |n.children|
    ensures Keys(n.children[i]) <= Keys(n)
  {
    LemmaKeysOfAt(n.children, i);
  }

  /** Replacing child `i` by `c` trades the old child's keys for those of `c`. */
  lemma LemmaReplaceChildKeys(n: Node, i: nat, c: Node)
    requires i < |n.children|
    ensures Keys(n.(children := n.children[i := c])) + Keys(n.children[i]) == Keys(n) + Keys(c)
  {
    var cs := n.children;
    var cs' := cs[i := c];
    LemmaKeysOfAt(cs, i);
    LemmaKeysOfAt(cs', i);
    assert cs'[..i] == cs[..i] && cs'[i + 1..] == cs[i + 1..];
  }

  /** A key held by the child vector is held by one of the children. */
  lemma {:induction false} LemmaKeyInSomeChild(cs: seq<Node>, x: int)
    requires x in KeysOf(cs)
    ensures exists i :: 0 <= i < |cs| && x in Keys(cs[i])
    decreases |cs|
  {
    var last := |cs| - 1;
    if x !in Keys(cs[last]) {
      LemmaKeyInSomeChild(cs[..last], x);
      var i :| 0 <= i < last && x in Keys(cs[..last][i]);
      assert cs[..last][i] == cs[i];
    }
  }

  lemma LemmaCancelAdd(x: multiset<int>, a: multiset<int>, b: multiset<int>, key: int)
    requires x + a == b + (a + multiset{key})
    ensures x == b + multiset{key}
  {
    var y := b + multiset{key};
    forall z ensures x[z] == y[z] {
      assert (x + a)[z] == (b + (a + multiset{key}))[z];
    }
  }

  lemma LemmaAtLeastPart(a: multiset<int>, b: multiset<int>, lo: int)
    requires AllAtLeast(a + b, lo)
    ensures AllAtLeast(a, lo) && AllAtLeast(b, lo)
  {
    forall x | x in a ensures lo <= x {
      assert x in a + b;
    }
    forall x | x in b ensures lo <= x {
      assert x in a + b;
    }
  }

  lemma LemmaAtMostPart(a: multiset<int>, b: multiset<int>, hi: int)
    requires AllAtMost(a + b, hi)
    ensures AllAtMost(a, hi) && AllAtMost(b, hi)
  {
    forall x | x in a ensures x <= hi {
      assert x in a + b;
    }
    forall x | x in b ensures x <= hi {
      assert x in a + b;
    }
  }

  // ---------------------------------------------------------------------------
  // split_child: keys
  // ---------------------------------------------------------------------------

  /**
   * The two halves and the median hold exactly the keys of the full node:
   * the lower keys, the median and the upper keys put back together are the
   * node's key vector, and the two child vectors together are its children.
   */
  lemma LemmaHalvesKeys(c: Node)
    requires IsFull(c) && (!c.isLeaf ==> |c.children| == MAX_KEYS + 1)
    requires c.isLeaf ==> c.children == []
    ensures c.keys == LowerHalf(c).keys + [c.keys[ORDER - 1]] + UpperHalf(c).keys
    ensures !c.isLeaf ==> c.children == LowerHalf(c).children + UpperHalf(c).children
    ensures Keys(LowerHalf(c)) + multiset{c.keys[ORDER - 1]} + Keys(UpperHalf(c)) == Keys(c)
  {
    var lo, hi := LowerHalf(c), UpperHalf(c);
    assert c.keys == lo.keys + [c.keys[ORDER - 1]] + hi.keys;
    if !c.isLeaf {
      assert c.children == lo.children + hi.children;
      LemmaKeysOfConcat(lo.children, hi.children);
    }
  }

  /** The children after `split_child` hold the keys of the old children minus the median. */
  lemma LemmaSplitChildChildrenKeys(n: Node, ci: nat)
    requires ci <= |n.keys| && ci < |n.children|
    requires IsFull(n.children[ci])
    requires !n.children[ci].isLeaf ==> |n.children[ci].children| == MAX_KEYS + 1
    requires n.children[ci].isLeaf ==> n.children[ci].children == []
    ensures KeysOf(SplitChild(n, ci).children) + multiset{n.children[ci].keys[ORDER - 1]}
            == KeysOf(n.children)
  {
    var child := n.children[ci];
    var lo, hi := LowerHalf(child), UpperHalf(child);
    var pre, post := n.children[..ci], n.children[ci + 1..];
    assert KeysOf(SplitChild(n, ci).children) == KeysOf(pre) + (Keys(lo) + Keys(hi)) + KeysOf(post) by {
      assert SplitChild(n, ci).children == pre + [lo, hi] + post;
      LemmaKeysOfSplice(pre, [lo, hi], post);
      LemmaKeysOfPair(lo, hi);
    }
    LemmaKeysOfAt(n.children, ci);
    LemmaHalvesKeys(child);
    LemmaSpliceMedian(KeysOf(pre), Keys(lo), Keys(hi), KeysOf(post), Keys(child), child.keys[ORDER - 1]);
  }

  lemma LemmaKeysOfPair(a: Node, b: Node)
    ensures KeysOf([a, b]) == Keys(a) + Keys(b)
  {
    assert [a, b][..1] == [a];
    LemmaKeysOfSingle(a);
  }

  lemma LemmaSpliceMedian(p: multiset<int>, l: multiset<int>, h: multiset<int>, q: multiset<int>,
                          c: multiset<int>, m: int)
    requires l + multiset{m} + h == c
    ensures p + (l + h) + q + multiset{m} == p + c + q
  {
  }

  lemma LemmaMoveOne(a: multiset<int>, b: multiset<int>, c: multiset<int>, d: multiset<int>, m: int)
    requires a == b + multiset{m} && c + multiset{m} == d
    ensures a + c == b + d
  {
  }

  /** `split_child` moves keys between nodes but neither adds nor loses one. */
  lemma LemmaSplitChildKeys(n: Node, ci: nat)
    requires ci <= |n.keys| && ci < |n.children|
    requires IsFull(n.children[ci])
    requires !n.children[ci].isLeaf ==> |n.children[ci].children| == MAX_KEYS + 1
    requires n.children[ci].isLeaf ==> n.children[ci].children == []
    ensures Keys(SplitChild(n, ci)) == Keys(n)
  {
    var s := SplitChild(n, ci);
    var m := n.children[ci].keys[ORDER - 1];
    LemmaSplitChildChildrenKeys(n, ci);
    assert multiset(s.keys) == multiset(n.keys) + multiset{m} by {
      assert n.keys == n.keys[..ci] + n.keys[ci..];
    }
    LemmaMoveOne(multiset(s.keys), multiset(n.keys), KeysOf(s.children), KeysOf(n.children), m);
  }

  // ---------------------------------------------------------------------------
  // split_child: order
  // ---------------------------------------------------------------------------

  lemma {:induction false} LemmaKeysOfAtMost(cs: seq<Node>, hi: int)
    requires forall k :: 0 <= k < |cs| ==> AllAtMost(Keys(cs[k]), hi)
    ensures AllAtMost(KeysOf(cs), hi)
  {
    forall x | x in KeysOf(cs) ensures x <= hi {
      LemmaKeyInSomeChild(cs, x);
    }
  }

  lemma {:induction false} LemmaKeysOfAtLeast(cs: seq<Node>, lo: int)
    requires forall k :: 0 <= k < |cs| ==> AllAtLeast(Keys(cs[k]), lo)
    ensures AllAtLeast(KeysOf(cs), lo)
  {
    forall x | x in KeysOf(cs) ensures lo <= x {
      LemmaKeyInSomeChild(cs, x);
    }
  }

  /** The lower half of an ordered full node is ordered and lies below the median. */
  lemma LemmaLowerHalfOrdered(c: Node)
    requires IsFull(c) && (!c.isLeaf ==> |c.children| == MAX_KEYS + 1)
    requires c.isLeaf ==> c.children == []
    requires Ordered(c)
    ensures Ordered(LowerHalf(c)) && AllAtMost(Keys(LowerHalf(c)), c.keys[ORDER - 1])
  {
    var lo := LowerHalf(c);
    var m := c.keys[ORDER - 1];
    forall k | 0 <= k < |lo.children|
      ensures Ordered(lo.children[k]) && SeparatedChild(lo, k) && AllAtMost(Keys(lo.children[k]), m)
    {
      assert lo.children[k] == c.children[k];
      assert SeparatedChild(c, k);
      assert c.keys[k] <= m;
    }
    LemmaKeysOfAtMost(lo.children, m);
  }

  /** The upper half of an ordered full node is ordered and lies above the median. */
  lemma LemmaUpperHalfOrdered(c: Node)
    requires IsFull(c) && (!c.isLeaf ==> |c.children| == MAX_KEYS + 1)
    requires Ordered(c)
    ensures Ordered(UpperHalf(c)) && AllAtLeast(Keys(UpperHalf(c)), c.keys[ORDER - 1])
  {
    var hi := UpperHalf(c);
    var m := c.keys[ORDER - 1];
    forall k | 0 <= k < |hi.children|
      ensures Ordered(hi.children[k]) && SeparatedChild(hi, k) && AllAtLeast(Keys(hi.children[k]), m)
    {
      assert hi.children[k] == c.children[ORDER + k];
      assert SeparatedChild(c, ORDER + k);
      assert m <= c.keys[ORDER + k - 1];
    }
    LemmaKeysOfAtLeast(hi.children, m);
  }

  /** Inserting `m` at position `ci` of a sorted vector, between its neighbours, keeps it sorted. */
  lemma LemmaInsertAtSorted(ks: seq<int>, ci: nat, m: int)
    requires Sorted(ks) && ci <= |ks|
    requires 0 < ci ==> ks[ci - 1] <= m
    requires ci < |ks| ==> m <= ks[ci]
    ensures Sorted(ks[..ci] + [m] + ks[ci..])
  {
    var r := ks[..ci] + [m] + ks[ci..];
    forall a, b | 0 <= a < b < |r| ensures r[a] <= r[b] {
      if b < ci {
        assert r[a] == ks[a] && r[b] == ks[b];
      } else if b == ci {
        assert r[a] == ks[a] <= ks[ci - 1];
      } else if a < ci {
        assert r[a] == ks[a] && r[b] == ks[b - 1];
      } else if a == ci {
        assert r[b] == ks[b - 1] >= ks[ci];
      } else {
        assert r[a] == ks[a - 1] && r[b] == ks[b - 1];
      }
    }
  }

  /** The halves that `split_child` creates are ordered and fit their slots around the median. */
  lemma LemmaSplitChildHalvesSeparated(n: Node, ci: nat)
    requires Ordered(n)
    requires ci <= |n.keys| && ci < |n.children| && IsFull(n.children[ci])
    requires !n.children[ci].isLeaf ==> |n.children[ci].children| == MAX_KEYS + 1
    requires n.children[ci].isLeaf ==> n.children[ci].children == []
    ensures var s := SplitChild(n, ci);
      && Ordered(s.children[ci]) && SeparatedChild(s, ci)
      && Ordered(s.children[ci + 1]) && SeparatedChild(s, ci + 1)
  {
    var s := SplitChild(n, ci);
    var child := n.children[ci];
    var lo, hi := LowerHalf(child), UpperHalf(child);
    LemmaSplitChildAt(n, ci, ci);
    LemmaSplitChildAt(n, ci, ci + 1);
    LemmaHalvesKeys(child);
    LemmaLowerHalfOrdered(child);
    LemmaUpperHalfOrdered(child);
    assert SeparatedChild(n, ci);
    if 0 < ci {
      LemmaSplitChildAt(n, ci, ci - 1);
      LemmaAtLeastPart(Keys(lo) + multiset{child.keys[ORDER - 1]}, Keys(hi), n.keys[ci - 1]);
      LemmaAtLeastPart(Keys(lo), multiset{child.keys[ORDER - 1]}, n.keys[ci - 1]);
    }
    if ci < |n.keys| {
      LemmaAtMostPart(Keys(lo) + multiset{child.keys[ORDER - 1]}, Keys(hi), n.keys[ci]);
    }
  }

  /** The children that `split_child` leaves in place keep their slots. */
  lemma LemmaSplitChildOthersSeparated(n: Node, ci: nat, k: nat)
    requires Ordered(n)
    requires ci <= |n.keys| && ci < |n.children| && IsFull(n.children[ci])
    requires !n.children[ci].isLeaf ==> |n.children[ci].children| == MAX_KEYS + 1
    requires k < |n.children| + 1 && k != ci && k != ci + 1
    ensures Ordered(SplitChild(n, ci).children[k]) && SeparatedChild(SplitChild(n, ci), k)
  {
    LemmaSplitChildAt(n, ci, k);
    if k < ci {
      assert SeparatedChild(n, k);
      if 0 < k {
        LemmaSplitChildAt(n, ci, k - 1);
      }
    } else {
      LemmaSplitChildAt(n, ci, k - 1);
      assert SeparatedChild(n, k - 1);
    }
  }

  /** `split_child` keeps the node ordered: the median lands between its neighbours. */
  lemma LemmaSplitChildOrdered(n: Node, ci: nat)
    requires Ordered(n)
    requires ci <= |n.keys| && ci < |n.children| && IsFull(n.children[ci])
    requires !n.children[ci].isLeaf ==> |n.children[ci].children| == MAX_KEYS + 1
    requires n.children[ci].isLeaf ==> n.children[ci].children == []
    ensures Ordered(SplitChild(n, ci))
  {
    var child := n.children[ci];
    var m := child.keys[ORDER - 1];
    var s := SplitChild(n, ci);
    assert SeparatedChild(n, ci);
    assert m in Keys(child) by {
      assert m in multiset(child.keys);
    }
    LemmaInsertAtSorted(n.keys, ci, m);
    LemmaSplitChildHalvesSeparated(n, ci);
    forall k | 0 <= k < |s.children| ensures Ordered(s.children[k]) && SeparatedChild(s, k) {
      if k != ci && k != ci + 1 {
        LemmaSplitChildOthersSeparated(n, ci, k);
      }
    }
  }

  // ---------------------------------------------------------------------------
  // split_child: fill
  // ---------------------------------------------------------------------------

  lemma LemmaHalvesFilled(c: Node)
    requires IsFull(c) && (!c.isLeaf ==> |c.children| == MAX_KEYS + 1)
    requires Filled(c)
    ensures Filled(LowerHalf(c)) && Filled(UpperHalf(c))
  {
    var hi := UpperHalf(c);
    forall k | 0 <= k < |hi.children| ensures MIN_KEYS <= |hi.children[k].keys| && Filled(hi.children[k]) {
      assert hi.children[k] == c.children[ORDER + k];
    }
  }

  /** `split_child` keeps every node at least MIN_KEYS full: both halves hold exactly MIN_KEYS. */
  lemma LemmaSplitChildFilled(n: Node, ci: nat)
    requires Filled(n)
    requires ci <= |n.keys| && ci < |n.children| && IsFull(n.children[ci])
    requires !n.children[ci].isLeaf ==> |n.children[ci].children| == MAX_KEYS + 1
    ensures Filled(SplitChild(n, ci))
  {
    var s := SplitChild(n, ci);
    LemmaSplitChildAt(n, ci, 0);
    LemmaHalvesFilled(n.children[ci]);
    forall k | 0 <= k < |s.children| ensures MIN_KEYS <= |s.children[k].keys| && Filled(s.children[k]) {
      LemmaSplitChildAt(n, ci, k);
    }
  }

  // ---------------------------------------------------------------------------
  // split_root
  // ---------------------------------------------------------------------------

  /** The one-child node that `split_root` builds around the old root before splitting it. */
  lemma LemmaWrapRoot(root: Node)
    requires IsBTree(root) && IsFull(root)
    ensures var w := Node(false, [], [root]);
      Ordered(w) && Filled(w) && Keys(w) == Keys(root)
  {
    var w := Node(false, [], [root]);
    assert SeparatedChild(w, 0);
    LemmaKeysOfSingle(root);
  }

  /**
   * `split_root` turns a full root into a valid root one level higher holding
   * the same keys.
   */
  lemma LemmaSplitRoot(root: Node)
    requires IsBTree(root) && IsFull(root)
    ensures IsBTree(SplitRoot(root)) && !IsFull(SplitRoot(root))
    ensures Keys(SplitRoot(root)) == Keys(root)
    ensures Height(SplitRoot(root)) == Height(root) + 1
  {
    LemmaSplitRootShaped(root);
    var w := Node(false, [], [root]);
    assert SplitRoot(root) == SplitChild(w, 0);
    LemmaWrapRoot(root);
    LemmaSplitChildKeys(w, 0);
    LemmaSplitChildOrdered(w, 0);
    LemmaSplitChildFilled(w, 0);
  }

  // ---------------------------------------------------------------------------
  // insert_non_full: keys
  // ---------------------------------------------------------------------------

  /** `insert_non_full` adds exactly one occurrence of `key`. */
  lemma {:induction false} LemmaInsertNonFullKeys(n: Node, key: int)
    requires Shaped(n) && !IsFull(n)
    ensures Keys(InsertNonFull(n, key)) == Keys(n) + multiset{key}
    decreases Height(n), 2
  {
    var i := FindKey(n.keys, key);
    if n.isLeaf {
    } else if IsFull(n.children[i + 1]) {
      assert InsertNonFull(n, key) == SplitThenInsert(n, i + 1, key);
      LemmaSplitThenInsertKeys(n, i + 1, key);
    } else {
      assert InsertNonFull(n, key) == InsertIntoChild(n, i + 1, key);
      LemmaInsertIntoChildKeys(n, i + 1, key);
    }
  }

  lemma {:induction false} LemmaSplitThenInsertKeys(n: Node, ci: nat, key: int)
    requires Shaped(n) && !IsFull(n) && !n.isLeaf
    requires ci < |n.children| && IsFull(n.children[ci])
    ensures Keys(SplitThenInsert(n, ci, key)) == Keys(n) + multiset{key}
    decreases Height(n), 1
  {
    LemmaSplitChildShaped(n, ci);
    var s := SplitChild(n, ci);
    LemmaSplitChildKeys(n, ci);
    LemmaInsertIntoChildKeys(s, if key > s.keys[ci] then ci + 1 else ci, key);
  }

  lemma {:induction false} LemmaInsertIntoChildKeys(n: Node, p: nat, key: int)
    requires Shaped(n) && !n.isLeaf && p < |n.children| && !IsFull(n.children[p])
    ensures Keys(InsertIntoChild(n, p, key)) == Keys(n) + multiset{key}
    decreases Height(n), 0
  {
    var c := InsertNonFull(n.children[p], key);
    var r := n.(children := n.children[p := c]);
    assert InsertIntoChild(n, p, key) == r;
    LemmaInsertNonFullKeys(n.children[p], key);
    LemmaReplaceChildKeys(n, p, c);
    LemmaCancelAdd(Keys(r), Keys(n.children[p]), Keys(n), key);
  }

  // ---------------------------------------------------------------------------
  // insert_non_full: order
  // ---------------------------------------------------------------------------

  /** Replacing child `p` by an ordered node that fits slot `p` keeps the node ordered. */
  lemma LemmaReplaceChildOrdered(n: Node, p: nat, c: Node)
    requires Ordered(n) && p < |n.children|
    requires Ordered(c) && InSlot(n.keys, p, Keys(c))
    ensures Ordered(n.(children := n.children[p := c]))
  {
    var r := n.(children := n.children[p := c]);
    forall k | 0 <= k < |r.children| ensures Ordered(r.children[k]) && SeparatedChild(r, k) {
      if k != p {
        assert r.children[k] == n.children[k];
        assert SeparatedChild(n, k);
      }
    }
  }

  lemma LemmaInSlotAdd(keys: seq<int>, p: nat, a: multiset<int>, key: int)
    requires InSlot(keys, p, a) && InSlot(keys, p, multiset{key})
    ensures InSlot(keys, p, a + multiset{key})
  {
  }

  /** `insert_non_full` keeps the tree ordered: the key enters the child whose slot holds it. */
  lemma {:induction false} LemmaInsertNonFullOrdered(n: Node, key: int)
    requires Shaped(n) && !IsFull(n) && Ordered(n)
    ensures Ordered(InsertNonFull(n, key))
    decreases Height(n), 3
  {
    if n.isLeaf {
      LemmaInsertLeafOrdered(n, key);
    } else if IsFull(n.children[FindKey(n.keys, key) + 1]) {
      LemmaInsertBySplitOrdered(n, key);
    } else {
      LemmaInsertByDescentOrdered(n, key);
    }
  }

  /** The branch of `insert_non_full` that splits the full child first. */
  lemma {:induction false} LemmaInsertBySplitOrdered(n: Node, key: int)
    requires Shaped(n) && !IsFull(n) && Ordered(n) && !n.isLeaf
    requires IsFull(n.children[FindKey(n.keys, key) + 1])
    ensures Ordered(InsertNonFull(n, key))
    decreases Height(n), 2
  {
    var i := FindKey(n.keys, key);
    LemmaFindKeySlot(n.keys, key);
    LemmaSplitThenInsertOrdered(n, i + 1, key);
    assert InsertNonFull(n, key) == SplitThenInsert(n, i + 1, key);
  }

  /** The branch of `insert_non_full` that descends into a child with room. */
  lemma {:induction false} LemmaInsertByDescentOrdered(n: Node, key: int)
    requires Shaped(n) && !IsFull(n) && Ordered(n) && !n.isLeaf
    requires !IsFull(n.children[FindKey(n.keys, key) + 1])
    ensures Ordered(InsertNonFull(n, key))
    decreases Height(n), 2
  {
    var i := FindKey(n.keys, key);
    LemmaFindKeySlot(n.keys, key);
    LemmaInsertIntoChildOrdered(n, i + 1, key);
    assert InsertNonFull(n, key) == InsertIntoChild(n, i + 1, key);
  }

  lemma LemmaInsertLeafOrdered(n: Node, key: int)
    requires Shaped(n) && !IsFull(n) && Ordered(n) && n.isLeaf
    ensures Ordered(InsertNonFull(n, key))
  {
    LemmaInsertKeySorted(n.keys, key);
    assert InsertNonFull(n, key) == Node(true, InsertKey(n.keys, key), []);
  }

  /** The key fits slot `find_key(key) + 1` of any key vector. */
  lemma LemmaFindKeySlot(keys: seq<int>, key: int)
    ensures InSlot(keys, FindKey(keys, key) + 1, multiset{key})
  {
  }

  /**
   * `find_key` is determined by where its scan stops: the only index whose
   * key is <= `key` while every later key is greater.
   */
  lemma LemmaFindKeyUnique(keys: seq<int>, key: int, i: int)
    requires -1 <= i < |keys|
    requires 0 <= i ==> keys[i] <= key
    requires forall j :: i < j < |keys| ==> key < keys[j]
    ensures i == FindKey(keys, key)
  {
  }

  lemma {:induction false} LemmaSplitThenInsertOrdered(n: Node, ci: nat, key: int)
    requires Shaped(n) && !IsFull(n) && !n.isLeaf
    requires ci < |n.children| && IsFull(n.children[ci])
    requires Ordered(n) && InSlot(n.keys, ci, multiset{key})
    ensures Ordered(SplitThenInsert(n, ci, key))
    decreases Height(n), 1
  {
    LemmaSplitChildShaped(n, ci);
    LemmaSplitChildOrdered(n, ci);
    var s := SplitChild(n, ci);
    var p := if key > s.keys[ci] then ci + 1 else ci;
    assert InSlot(s.keys, p, multiset{key}) by {
      LemmaSplitChildAt(n, ci, ci);
      if p == ci + 1 {
        LemmaSplitChildAt(n, ci, ci + 1);
      } else if 0 < ci {
        LemmaSplitChildAt(n, ci, ci - 1);
      }
    }
    LemmaInsertIntoChildOrdered(s, p, key);
  }

  lemma {:induction false} LemmaInsertIntoChildOrdered(n: Node, p: nat, key: int)
    requires Shaped(n) && !n.isLeaf && p < |n.children| && !IsFull(n.children[p])
    requires Ordered(n) && InSlot(n.keys, p, multiset{key})
    ensures Ordered(InsertIntoChild(n, p, key))
    decreases Height(n), 0
  {
    var c := InsertNonFull(n.children[p], key);
    LemmaInsertNonFullOrdered(n.children[p], key);
    LemmaInsertNonFullKeys(n.children[p], key);
    assert SeparatedChild(n, p);
    LemmaInSlotAdd(n.keys, p, Keys(n.children[p]), key);
    LemmaReplaceChildOrdered(n, p, c);
  }

  // ---------------------------------------------------------------------------
  // insert_non_full: fill
  // ---------------------------------------------------------------------------

  lemma LemmaReplaceChildFilled(n: Node, p: nat, c: Node)
    requires Filled(n) && p < |n.children|
    requires Filled(c) && |c.keys| >= |n.children[p].keys|
    ensures Filled(n.(children := n.children[p := c]))
  {
    var r := n.(children := n.children[p := c]);
    forall k | 0 <= k < |r.children| ensures MIN_KEYS <= |r.children[k].keys| && Filled(r.children[k]) {
      if k != p {
        assert r.children[k] == n.children[k];
      }
    }
  }

  /** `insert_non_full` never leaves a node below its minimum fill. */
  lemma {:induction false} LemmaInsertNonFullFilled(n: Node, key: int)
    requires Shaped(n) && !IsFull(n) && Filled(n)
    ensures Filled(InsertNonFull(n, key))
    decreases Height(n), 2
  {
    var i := FindKey(n.keys, key);
    if n.isLeaf {
      assert InsertNonFull(n, key) == Node(true, InsertKey(n.keys, key), []);
    } else if IsFull(n.children[i + 1]) {
      assert InsertNonFull(n, key) == SplitThenInsert(n, i + 1, key);
      LemmaSplitThenInsertFilled(n, i + 1, key);
    } else {
      assert InsertNonFull(n, key) == InsertIntoChild(n, i + 1, key);
      LemmaInsertIntoChildFilled(n, i + 1, key);
    }
  }

  lemma {:induction false} LemmaSplitThenInsertFilled(n: Node, ci: nat, key: int)
    requires Shaped(n) && !IsFull(n) && !n.isLeaf
    requires ci < |n.children| && IsFull(n.children[ci])
    requires Filled(n)
    ensures Filled(SplitThenInsert(n, ci, key))
    decreases Height(n), 1
  {
    LemmaSplitChildShaped(n, ci);
    LemmaSplitChildFilled(n, ci);
    var s := SplitChild(n, ci);
    LemmaInsertIntoChildFilled(s, if key > s.keys[ci] then ci + 1 else ci, key);
  }

  lemma {:induction false} LemmaInsertIntoChildFilled(n: Node, p: nat, key: int)
    requires Shaped(n) && !n.isLeaf && p < |n.children| && !IsFull(n.children[p])
    requires Filled(n)
    ensures Filled(InsertIntoChild(n, p, key))
    decreases Height(n), 0
  {
    LemmaInsertNonFullFilled(n.children[p], key);
    LemmaReplaceChildFilled(n, p, InsertNonFull(n.children[p], key));
  }

  // ---------------------------------------------------------------------------
  // BTree::insert and BTree::exist
  // ---------------------------------------------------------------------------

  /**
   * `insert` keeps every invariant, adds exactly one occurrence of the key, and
   * grows the height by one exactly when the root was full.
   */
  lemma LemmaInsert(root: Node, key: int)
    requires IsBTree(root)
    ensures IsBTree(Insert(root, key))
    ensures Keys(Insert(root, key)) == Keys(root) + multiset{key}
    ensures Height(Insert(root, key)) == if IsFull(root) then Height(root) + 1 else Height(root)
  {
    var t := if IsFull(root) then SplitRoot(root) else root;
    if IsFull(root) {
      LemmaSplitRoot(root);
    }
    assert Insert(root, key) == InsertNonFull(t, key);
    LemmaInsertNonFullRoot(t, key);
  }

  /** `insert_non_full` at a root that is not full keeps every invariant and adds the key once. */
  lemma LemmaInsertNonFullRoot(root: Node, key: int)
    requires IsBTree(root) && !IsFull(root)
    ensures IsBTree(InsertNonFull(root, key))
    ensures Keys(InsertNonFull(root, key)) == Keys(root) + multiset{key}
    ensures Height(InsertNonFull(root, key)) == Height(root)
  {
    LemmaInsertNonFullKeys(root, key);
    LemmaInsertNonFullOrdered(root, key);
    LemmaInsertNonFullFilled(root, key);
  }

  /** Every child other than `j` lacks `key`. */
  ghost predicate OnlyChildMayHold(cs: seq<Node>, j: nat, key: int) {
    forall c :: 0 <= c < |cs| && c != j ==> key !in Keys(cs[c])
  }

  /** Only child `find_key(key) + 1` can hold a key that the node itself does not hold. */
  lemma LemmaOtherChildrenLackKey(n: Node, key: int)
    requires |n.children| == |n.keys| + 1 && Ordered(n)
    requires key !in multiset(n.keys)
    ensures OnlyChildMayHold(n.children, FindKey(n.keys, key) + 1, key)
  {
    var i := FindKey(n.keys, key);
    forall c | 0 <= c < |n.children| && c != i + 1 ensures key !in Keys(n.children[c]) {
      assert SeparatedChild(n, c);
      if c <= i {
        assert n.keys[c] <= n.keys[i] && n.keys[i] != key;
      } else {
        assert key < n.keys[c - 1];
      }
    }
  }

  /** A key that `find_key` does not land on is not in the node's key vector. */
  lemma LemmaFindKeyMiss(keys: seq<int>, key: int)
    requires Sorted(keys)
    requires var i := FindKey(keys, key); !(0 <= i && keys[i] == key)
    ensures key !in multiset(keys)
  {
    var i := FindKey(keys, key);
    forall j | 0 <= j < |keys| ensures keys[j] != key {
      if j < i {
        assert keys[j] <= keys[i];
      }
    }
    assert key !in keys;
  }

  /** A key of a child vector that all children but `j` lack is in child `j`. */
  lemma LemmaOnlyChildHasKey(cs: seq<Node>, j: nat, key: int)
    requires j < |cs| && key in KeysOf(cs)
    requires OnlyChildMayHold(cs, j, key)
    ensures key in Keys(cs[j])
  {
    LemmaKeyInSomeChild(cs, key);
  }

  /** A leaf holds only its own keys, so a key that `find_key` misses is not in it. */
  lemma LemmaMissInLeaf(n: Node, key: int)
    requires Shaped(n) && Ordered(n) && n.isLeaf
    requires var i := FindKey(n.keys, key); !(0 <= i && n.keys[i] == key)
    ensures key !in Keys(n)
  {
    LemmaFindKeyMiss(n.keys, key);
    assert KeysOf(n.children) == multiset{};
  }

  /** A node whose keys and children other than `j` all lack `key` holds it exactly when child `j` does. */
  lemma LemmaKeyOnlyInChild(n: Node, j: nat, key: int)
    requires j < |n.children| && key !in multiset(n.keys)
    requires OnlyChildMayHold(n.children, j, key)
    ensures key in Keys(n) <==> key in Keys(n.children[j])
  {
    LemmaChildKeys(n, j);
    if key in Keys(n) {
      assert key in KeysOf(n.children);
      LemmaOnlyChildHasKey(n.children, j, key);
    }
  }

  /** One step of the descent of `exist`: a miss at an internal node continues in child `find_key(key) + 1`. */
  lemma LemmaSearchStep(n: Node, key: int)
    requires Shaped(n) && !n.isLeaf
    requires var i := FindKey(n.keys, key); !(0 <= i && n.keys[i] == key)
    ensures Search(n, key) == Search(n.children[FindKey(n.keys, key) + 1], key)
  {
  }

  /** A miss at an internal node of an ordered tree: the node holds `key` exactly when the descent child does. */
  lemma LemmaKeysDescend(n: Node, key: int)
    requires Shaped(n) && Ordered(n) && !n.isLeaf
    requires var i := FindKey(n.keys, key); !(0 <= i && n.keys[i] == key)
    ensures key in Keys(n) <==> key in Keys(n.children[FindKey(n.keys, key) + 1])
  {
    LemmaFindKeyMiss(n.keys, key);
    LemmaOtherChildrenLackKey(n, key);
    LemmaKeyOnlyInChild(n, FindKey(n.keys, key) + 1, key);
  }

  /**
   * On an ordered tree the descent of `exist` answers true exactly when the
   * tree holds the key.
   */
  lemma {:induction false} LemmaSearch(n: Node, key: int)
    requires Shaped(n) && Ordered(n)
    ensures Search(n, key) <==> key in Keys(n)
    decreases n
  {
    var i := FindKey(n.keys, key);
    if 0 <= i && n.keys[i] == key {
      assert key in multiset(n.keys);
    } else if n.isLeaf {
      LemmaMissInLeaf(n, key);
    } else {
      LemmaSearchStep(n, key);
      LemmaKeysDescend(n, key);
      assert Ordered(n.children[i + 1]);
      LemmaSearch(n.children[i + 1], key);
    }
  }

  // ---------------------------------------------------------------------------
  // Sequences of insertions
  // ---------------------------------------------------------------------------

  /** The tree after inserting `xs` in order, one `insert` per element. */
  function InsertAll(root: Node, xs: seq<int>): (r: Node)
    requires Shaped(root)
    ensures Shaped(r)
    decreases |xs|
  {
    if xs == [] then root else InsertAll(Insert(root, xs[0]), xs[1..])
  }

  /** Inserting a sequence keeps the invariants and adds exactly its elements. */
  lemma {:induction false} LemmaInsertAll(root: Node, xs: seq<int>)
    requires IsBTree(root)
    ensures IsBTree(InsertAll(root, xs))
    ensures Keys(InsertAll(root, xs)) == Keys(root) + multiset(xs)
    decreases |xs|
  {
    if xs != [] {
      LemmaInsert(root, xs[0]);
      LemmaInsertAll(Insert(root, xs[0]), xs[1..]);
      assert xs == [xs[0]] + xs[1..];
    }
  }

  /**
   * From a tree holding no key, such as the one the constructor builds, after
   * inserting `xs`, `exist(k)` is true exactly for the elements of `xs`.
   */
  lemma LemmaExistAfterInserts(root: Node, xs: seq<int>, k: int)
    requires IsBTree(root) && Keys(root) == multiset{}
    ensures Search(InsertAll(root, xs), k) <==> k in xs
  {
    LemmaInsertAll(root, xs);
    LemmaSearch(InsertAll(root, xs), k);
  }

  /**
   * The lookup test of the repository: after inserting 1, 2, ..., 11 into a
   * tree holding no key, each of them exists and 0 does not.
   */
  lemma LemmaExistOneToEleven(root: Node, xs: seq<int>)
    requires IsBTree(root) && Keys(root) == multiset{}
    requires |xs| == 11 && forall i :: 0 <= i < |xs| ==> xs[i] == i + 1
    ensures forall k :: 1 <= k <= 11 ==> Search(InsertAll(root, xs), k)
    ensures !Search(InsertAll(root, xs), 0)
  {
    forall k | 1 <= k <= 11 ensures Search(InsertAll(root, xs), k) {
      LemmaExistAfterInserts(root, xs, k);
      assert xs[k - 1] == k;
    }
    LemmaExistAfterInserts(root, xs, 0);
  }
}
