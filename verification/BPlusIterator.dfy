/** The cursor of internal/bplustree over the leaf chain, including deletion under the
    cursor while the tree rebalances. */
module BPlusIterator {
  import opened BPlusShape
  import opened BPlusTree

  datatype Error = NoError | IteratorInvalid | IteratorDone | KeyNotFound

  ghost predicate LeastFrom(e: map<Key, string>, k: Key, x: Key) {
    x in e && k <= x && forall y :: y in e && k <= y ==> x <= y
  }

  ghost predicate LeastAbove(e: map<Key, string>, k: Key, x: Key) {
    x in e && k < x && forall y :: y in e && k < y ==> x <= y
  }

  ghost predicate GreatestBelow(e: map<Key, string>, k: Key, x: Key) {
    x in e && x < k && forall y :: y in e && y < k ==> y <= x
  }

  /** A key at or after position i of a leaf is the least entry from a bound in between. */
  lemma LeastInLeaf(r: Rec, e: map<Key, string>, i: int, k: Key)
    requires LeafOk(r) && LeafStores(r, e) && 0 <= i < |r.keys| && Above(r.lo, k)
    requires i > 0 ==> r.keys[i - 1] < k
    requires k <= r.keys[i]
    ensures LeastFrom(e, k, r.keys[i])
  {
    forall y | y in e && k <= y ensures r.keys[i] <= y {
      if y < r.keys[i] { NoneBetween(r, e, i, y); }
    }
  }

  lemma NoneLeftInLeaf(r: Rec, e: map<Key, string>, k: Key, y: Key)
    requires LeafOk(r) && LeafStores(r, e) && Above(r.lo, k) && (r.keys != [] ==> r.keys[|r.keys| - 1] < k)
    requires y in e && k <= y
    ensures r.hi.At? && r.hi.key <= y
  {
    if Below(y, r.hi) { NoneBetween(r, e, |r.keys|, y); }
  }

  /** What lies just above entry i of leaf n. */
  lemma AboveEntry(t: Tree, n: Node, i: int)
    requires t.Valid() && n in t.mem && t.mem[n].isLeaf && 0 <= i < |t.mem[n].keys|
    ensures t.Matches(n, t.mem[n])
    ensures i + 1 < |n.keys| ==> LeastAbove(t.entries, n.keys[i], n.keys[i + 1])
    ensures i + 1 == |n.keys| && n.next != null ==>
              && n.next in t.mem && t.mem[n.next].isLeaf && t.Matches(n.next, t.mem[n.next])
              && |n.next.keys| > 0 && LeastAbove(t.entries, n.keys[i], n.next.keys[0])
    ensures i + 1 == |n.keys| && n.next == null ==> forall y :: y in t.entries ==> y <= n.keys[i]
  {
    var r := t.mem[n];
    assert t.Matches(n, r) && NodeOk(t.mem, n) && LeafStores(r, t.entries);
    forall y | y in t.entries && n.keys[i] < y
      ensures i + 1 < |n.keys| ==> n.keys[i + 1] <= y
      ensures i + 1 == |n.keys| ==> r.hi.At? && r.hi.key <= y
    {
      if Holds(r, y) && (i + 1 < |n.keys| ==> y < n.keys[i + 1]) { NoneBetween(r, t.entries, i + 1, y); }
      assert i + 1 < |n.keys| ==> Below(n.keys[i + 1], r.hi);
    }
    if i + 1 == |n.keys| && n.next != null { FirstAbove(t, n, n.keys[i]); }
  }

  lemma FirstAbove(t: Tree, n: Node, k: Key)
    requires t.Valid() && n in t.mem && t.mem[n].isLeaf && t.Matches(n, t.mem[n]) && n.next != null && Below(k, t.mem[n].hi)
    requires t.mem[n].hi.At? ==> forall y :: y in t.entries && k < y ==> t.mem[n].hi.key <= y
    ensures n.next in t.mem && t.mem[n.next].isLeaf && t.Matches(n.next, t.mem[n.next])
    ensures |n.next.keys| > 0 && LeastAbove(t.entries, k, n.next.keys[0])
  {
    NextLeaf(t, n);
  }

  /** The next leaf starts with the least entry beyond this one's range. */
  lemma NextLeaf(t: Tree, n: Node)
    requires t.Valid() && n in t.mem && t.mem[n].isLeaf
    ensures t.Matches(n, t.mem[n]) && (n.next == null ==> t.mem[n].hi == Inf)
    ensures n.next != null ==>
              && n.next in t.mem && t.mem[n.next].isLeaf && t.Matches(n.next, t.mem[n.next])
              && |n.next.keys| > 0 && t.mem[n].hi.At? && LeastFrom(t.entries, t.mem[n].hi.key, n.next.keys[0])
  {
    assert t.Matches(n, t.mem[n]) && NodeOk(t.mem, n);
    if n.next != null {
      var s := t.mem[n.next];
      NeighbourNonEmpty(t, n.next);
      assert Above(s.lo, s.keys[0]);
      LeastInLeaf(s, t.entries, 0, t.mem[n].hi.key);
    }
  }

  lemma NeighbourNonEmpty(t: Tree, y: Node)
    requires t.Valid() && y in t.mem && t.mem[y].isLeaf && (t.mem[y].lo.At? || t.mem[y].hi.At?)
    ensures t.Matches(y, t.mem[y]) && NodeOk(t.mem, y) && LeafStores(t.mem[y], t.entries) && |t.mem[y].keys| > 0
  {
    assert NodeOk(t.mem, y) && t.Matches(y, t.mem[y]) && LeafStores(t.mem[y], t.entries) && SizeOk(t.mem[y], t.maxKeys);
    if t.mem[y].parent == null { RootLeafHoldsAll(t, y); }
  }

  /** What lies just below entry i of leaf n. */
  lemma BelowEntry(t: Tree, n: Node, i: int)
    requires t.Valid() && n in t.mem && t.mem[n].isLeaf && 0 <= i < |t.mem[n].keys|
    ensures t.Matches(n, t.mem[n])
    ensures i > 0 ==> GreatestBelow(t.entries, n.keys[i], n.keys[i - 1])
    ensures i == 0 && n.prev != null ==>
              && n.prev in t.mem && t.mem[n.prev].isLeaf && t.Matches(n.prev, t.mem[n.prev])
              && |n.prev.keys| > 0 && GreatestBelow(t.entries, n.keys[0], n.prev.keys[|n.prev.keys| - 1])
    ensures i == 0 && n.prev == null ==> forall y :: y in t.entries ==> n.keys[0] <= y
  {
    var r := t.mem[n];
    assert t.Matches(n, r) && NodeOk(t.mem, n) && LeafStores(r, t.entries);
    forall y | y in t.entries && y < n.keys[i]
      ensures i > 0 ==> y <= n.keys[i - 1]
      ensures i == 0 ==> r.lo.At? && y < r.lo.key
    {
      if Holds(r, y) && (i > 0 ==> n.keys[i - 1] < y) { NoneBetween(r, t.entries, i, y); }
      assert i > 0 ==> Above(r.lo, n.keys[i - 1]);
      assert Below(n.keys[i], r.hi);
    }
    if i == 0 && n.prev != null { LastBelow(t, n, n.keys[0]); }
  }

  lemma LastBelow(t: Tree, n: Node, k: Key)
    requires t.Valid() && n in t.mem && t.mem[n].isLeaf && t.Matches(n, t.mem[n]) && n.prev != null && Above(t.mem[n].lo, k)
    requires t.mem[n].lo.At? ==> forall y :: y in t.entries && y < k ==> y < t.mem[n].lo.key
    ensures n.prev in t.mem && t.mem[n.prev].isLeaf && t.Matches(n.prev, t.mem[n.prev])
    ensures |n.prev.keys| > 0 && GreatestBelow(t.entries, k, n.prev.keys[|n.prev.keys| - 1])
  {
    assert NodeOk(t.mem, n);
    var y := n.prev;
    var s := t.mem[y];
    NeighbourNonEmpty(t, y);
    assert Below(s.keys[|s.keys| - 1], s.hi);
    forall z | z in t.entries && z < k ensures z <= s.keys[|s.keys| - 1] { LastInLeaf(s, t.entries, z); }
  }

  /** No entry lies between a leaf's last key and the end of its range. */
  lemma LastInLeaf(r: Rec, e: map<Key, string>, y: Key)
    requires LeafOk(r) && LeafStores(r, e) && y in e && Below(y, r.hi)
    ensures r.keys != [] ==> y <= r.keys[|r.keys| - 1]
    ensures r.keys == [] ==> !Above(r.lo, y)
  {
    if r.keys != [] {
      assert Above(r.lo, r.keys[|r.keys| - 1]);
      if r.keys[|r.keys| - 1] < y { NoneBetween(r, e, |r.keys|, y); }
    } else {
      NoneBetween(r, e, 0, y);
    }
  }

  /** The last entry in or before a leaf's range, if there is any, is its last key. */
  lemma LeafEnd(t: Tree, n: Node)
    requires t.Valid() && n in t.mem && t.mem[n].isLeaf
    ensures t.Matches(n, t.mem[n])
    ensures forall y :: y in t.entries && Below(y, t.mem[n].hi) ==> n.keys != [] && y <= n.keys[|n.keys| - 1]
    ensures n.keys != [] ==> n.keys[|n.keys| - 1] in t.entries
    ensures n.keys == [] ==> n.prev == null
  {
    var r := t.mem[n];
    assert t.Matches(n, r) && NodeOk(t.mem, n) && LeafStores(r, t.entries);
    if n.keys == [] && (r.lo.At? || r.hi.At?) { NeighbourNonEmpty(t, n); }
    forall y | y in t.entries && Below(y, r.hi) ensures n.keys != [] && y <= n.keys[|n.keys| - 1] {
      LastInLeaf(r, t.entries, y);
    }
  }

  class Iterator {
    var tree: Tree
    var node: Node?
    var index: int
    var key: Key
    var valid: bool

    /** The cursor's node is a leaf of the tree. */
    ghost predicate OnLeaf()
      reads this, tree, tree.mem.Keys
    {
      valid && node != null && node in tree.mem && tree.mem[node].isLeaf && 0 <= index
    }

    ghost predicate AtSlot()
      reads this, tree, tree.mem.Keys
    {
      OnLeaf() && index < |tree.mem[node].keys|
    }

    /** The key at the cursor's place, which is not the cursor's key if the leaf has changed. */
    ghost function Slot(): Key
      requires AtSlot()
      reads this, tree, tree.mem.Keys
    {
      tree.mem[node].keys[index]
    }

    /** The cursor stands on a live entry. */
    ghost predicate OnEntry()
      reads this, tree, tree.mem.Keys
    {
      AtSlot() && Slot() == key && key in tree.entries
    }

    /** The cursor's key is the one at its place, be it in the tree or not. */
    ghost predicate Reads()
      reads this, node
    {
      valid && node != null && 0 <= index < |node.keys| && node.keys[index] == key
    }

    constructor Blank(t: Tree)
      ensures tree == t && !valid && node == null
    {
      tree, node, index, key, valid := t, null, 0, 0.0, false;
    }

    /** The least entry above the key at the cursor's place, or beyond its leaf. */
    method Next() returns (err: Error)
      requires tree.Valid() && (valid ==> node != null && 0 <= index)
      modifies this`node, this`index, this`key, this`valid
      ensures !old(valid) ==> err == IteratorInvalid && !valid
      ensures old(valid) ==> if err == NoError then Reads() else err == IteratorDone && !valid
      ensures old(OnLeaf()) && err == NoError ==> OnEntry()
      ensures old(AtSlot()) ==>
                if err == NoError then LeastAbove(tree.entries, old(Slot()), key)
                else forall y :: y in tree.entries ==> y <= old(Slot())
      ensures old(OnLeaf() && !AtSlot()) ==>
                var hi := old(tree.mem[node].hi);
                if err == NoError then hi.At? && LeastFrom(tree.entries, hi.key, key) else hi == Inf
    {
      if !valid { return IteratorInvalid; }
      if AtSlot() {
        AboveEntry(tree, node, index);
      } else if OnLeaf() {
        NextLeaf(tree, node);
      }
      index := index + 1;
      if index < |node.keys| {
        key := node.keys[index];
        return NoError;
      }
      if node.next != null {
        node := node.next;
        index := 0;
        if |node.keys| > 0 {
          key := node.keys[0];
          return NoError;
        }
      }
      valid := false;
      return IteratorDone;
    }

    /** The greatest entry below the key at the cursor's place, or the last of its leaf. */
    method Prev() returns (err: Error)
      requires tree.Valid() && (valid ==> node != null && 0 <= index <= |node.keys|)
      modifies this`node, this`index, this`key, this`valid
      ensures !old(valid) ==> err == IteratorInvalid && !valid
      ensures old(valid) ==> if err == NoError then Reads() else err == IteratorDone && !valid
      ensures old(OnLeaf()) && err == NoError ==> OnEntry()
      ensures old(AtSlot()) ==>
                if err == NoError then GreatestBelow(tree.entries, old(Slot()), key)
                else forall y :: y in tree.entries ==> old(Slot()) <= y
      ensures old(OnLeaf() && !AtSlot()) ==>
                forall y :: y in tree.entries && Below(y, old(tree.mem[node].hi)) ==> err == NoError && y <= key
    {
      if !valid { return IteratorInvalid; }
      if AtSlot() {
        BelowEntry(tree, node, index);
      } else if OnLeaf() {
        LeafEnd(tree, node);
      }
      index := index - 1;
      if index >= 0 {
        key := node.keys[index];
        return NoError;
      }
      if node.prev != null {
        node := node.prev;
        index := |node.keys| - 1;
        if index >= 0 {
          key := node.keys[index];
          return NoError;
        }
      }
      valid := false;
      return IteratorDone;
    }

    /** Looks one entry back and returns to where the cursor stood. */
    method PeekPrev() returns (hasPrev: bool, prevKey: Key)
      requires tree.Valid() && valid && node != null && 0 <= index <= |node.keys|
      modifies this`node, this`index, this`key, this`valid
      ensures node == old(node) && index == old(index) && key == old(key) && valid
      ensures OnEntry() && hasPrev ==> GreatestBelow(tree.entries, key, prevKey)
      ensures OnEntry() && !hasPrev ==> forall y :: y in tree.entries ==> key <= y
    {
      var savedNode, savedIndex, savedKey, savedValid := node, index, key, valid;
      var err := Prev();
      hasPrev, prevKey := err == NoError, key;
      node, index, key, valid := savedNode, savedIndex, savedKey, savedValid;
    }

    /** Deletes the entry under the cursor and moves to its successor, failing that to its
        predecessor; the cursor becomes invalid when the tree is empty. */
    method Delete() returns (err: Error)
      requires tree.Valid() && (valid ==> node != null)
      modifies this`node, this`index, this`key, this`valid, tree, tree.mem.Keys
      ensures tree == old(tree) && tree.Valid() && tree.mem.Keys <= old(tree.mem.Keys)
      ensures !old(valid) ==> err == IteratorInvalid && tree.entries == old(tree.entries) && !valid
      ensures err != NoError ==> tree.entries == old(tree.entries) && !valid
      ensures old(OnEntry()) ==> err == NoError
      ensures err == NoError ==> old(valid && key in tree.entries) && tree.entries == old(tree.entries) - {old(key)}
      ensures err == NoError && (exists y :: y in tree.entries && old(key) < y) ==>
                OnEntry() && LeastAbove(tree.entries, old(key), key)
      ensures old(OnEntry()) && (forall y :: y in tree.entries ==> y < old(key)) && tree.entries != map[] ==>
                OnEntry() && GreatestBelow(tree.entries, old(key), key)
      ensures err == NoError && tree.entries == map[] ==> !valid
    {
      if !valid { return IteratorInvalid; }
      if OnEntry() { assert tree.Matches(node, tree.mem[node]); }
      if index < 0 || index >= |node.keys| || node.keys[index] != key {
        valid := false;
        return KeyNotFound;
      }
      var hasPrev, prevKey := PeekPrev();
      err := DeleteAndLand(key, hasPrev, prevKey);
    }

    method DeleteAndLand(k: Key, hasPrev: bool, prevKey: Key) returns (err: Error)
      requires tree.Valid()
      modifies this`node, this`index, this`key, this`valid, tree, tree.mem.Keys
      ensures tree == old(tree) && tree.Valid() && tree.mem.Keys <= old(tree.mem.Keys)
      ensures err == if k in old(tree.entries) then NoError else KeyNotFound
      ensures err != NoError ==> tree.entries == old(tree.entries) && !valid
      ensures err == NoError ==> tree.entries == old(tree.entries) - {k}
      ensures err == NoError && (exists y :: y in tree.entries && k < y) ==> OnEntry() && LeastAbove(tree.entries, k, key)
      ensures err == NoError && (forall y :: y in tree.entries ==> y < k) && hasPrev && GreatestBelow(tree.entries, k, prevKey) ==>
                OnEntry() && key == prevKey
      ensures err == NoError && tree.entries == map[] ==> !valid
    {
      var deleted := tree.Delete(k);
      if !deleted {
        valid := false;
        return KeyNotFound;
      }
      Land(k, hasPrev, prevKey);
      return NoError;
    }

    /** Repositions the cursor after the entry at k is gone. */
    method Land(k: Key, hasPrev: bool, prevKey: Key)
      requires tree.Valid() && k !in tree.entries
      modifies this`node, this`index, this`key, this`valid
      ensures (exists y :: y in tree.entries && k < y) ==> OnEntry() && LeastAbove(tree.entries, k, key)
      ensures (forall y :: y in tree.entries ==> y < k) && hasPrev && GreatestBelow(tree.entries, k, prevKey) ==>
                OnEntry() && key == prevKey
      ensures tree.entries == map[] ==> !valid
    {
      var nextIt := NewIteratorAt(tree, k);
      if nextIt.valid {
        node, index, key, valid := nextIt.node, nextIt.index, nextIt.key, true;
        return;
      }
      if hasPrev {
        var prevIt := NewIteratorAt(tree, prevKey);
        if prevIt.valid {
          node, index, key, valid := prevIt.node, prevIt.index, prevIt.key, true;
          return;
        }
      }
      valid := false;
    }
  }

  /** NewIterator: the cursor on the least entry. */
  method NewIterator(t: Tree) returns (it: Iterator)
    requires t.Valid()
    ensures fresh(it) && it.tree == t
    ensures it.valid <==> t.entries != map[]
    ensures it.valid ==> it.OnEntry() && forall y :: y in t.entries ==> it.key <= y
  {
    it := new Iterator.Blank(t);
    if t.count == 0 { return; }
    var current := t.root;
    assert NodeOk(t.mem, null) && ChildOk(t.mem, null, t.mem[null], 0);
    assert t.Matches(current, t.mem[current]);
    while !current.isLeaf
      invariant current in t.mem && t.Matches(current, t.mem[current]) && t.mem[current].lo == Inf
      decreases t.mem[current].height
    {
      assert NodeOk(t.mem, current) && ChildOk(t.mem, current, t.mem[current], 0);
      current := current.children[0];
      assert NodeOk(t.mem, current) && t.Matches(current, t.mem[current]);
    }
    FirstLeafNonEmpty(t, current);
    it.node, it.index, it.key, it.valid := current, 0, current.keys[0], true;
  }

  lemma FirstLeafNonEmpty(t: Tree, n: Node)
    requires t.Valid() && t.count != 0 && n in t.mem && t.mem[n].isLeaf && t.mem[n].lo == Inf
    ensures |t.mem[n].keys| > 0 && t.mem[n].keys[0] in t.entries
    ensures forall y :: y in t.entries ==> t.mem[n].keys[0] <= y
  {
    var r := t.mem[n];
    assert NodeOk(t.mem, n) && LeafStores(r, t.entries) && SizeOk(r, t.maxKeys);
    if |r.keys| == 0 {
      RootLeafHoldsAll(t, n);
      forall y | y in t.entries ensures y in r.keys { assert Holds(r, y); }
    }
    forall y | y in t.entries ensures r.keys[0] <= y {
      if y < r.keys[0] { NoneBetween(r, t.entries, 0, y); }
    }
  }

  lemma RootLeafHoldsAll(t: Tree, n: Node)
    requires t.Valid() && n in t.mem && t.mem[n].parent == null
    ensures t.mem[n].lo == Inf && t.mem[n].hi == Inf
  {
    OnlyRoot(t.mem, t.root);
    assert NodeOk(t.mem, null) && ChildOk(t.mem, null, t.mem[null], 0);
  }

  /** NewIteratorAt: the cursor on the least entry not below key. */
  method NewIteratorAt(t: Tree, key: Key) returns (it: Iterator)
    requires t.Valid()
    ensures fresh(it) && it.tree == t
    ensures it.valid ==> it.OnEntry() && LeastFrom(t.entries, key, it.key)
    ensures !it.valid ==> forall y :: y in t.entries ==> y < key
  {
    it := new Iterator.Blank(t);
    if t.count == 0 {
      assert t.entries == map[];
      return;
    }
    var leaf := t.FindLeaf(key);
    var idx := Tree.LowerBound(leaf.keys, key);
    assert NodeOk(t.mem, leaf) && LeafStores(t.mem[leaf], t.entries);
    if idx >= |leaf.keys| {
      if leaf.next != null {
        FromNextLeaf(t, leaf, key);
        it.node, it.index, it.key, it.valid := leaf.next, 0, leaf.next.keys[0], true;
      } else {
        forall y | y in t.entries && key <= y ensures false { NoneLeftInLeaf(t.mem[leaf], t.entries, key, y); }
      }
    } else {
      LeastInLeaf(t.mem[leaf], t.entries, idx, key);
      it.node, it.index, it.key, it.valid := leaf, idx, leaf.keys[idx], true;
    }
  }

  /** The first key of the next leaf, when nothing from k on is left in this one. */
  lemma FromNextLeaf(t: Tree, n: Node, k: Key)
    requires t.Valid() && n in t.mem && t.mem[n].isLeaf && t.Matches(n, t.mem[n]) && n.next != null
    requires Above(t.mem[n].lo, k) && (t.mem[n].keys != [] ==> t.mem[n].keys[|t.mem[n].keys| - 1] < k) && Below(k, t.mem[n].hi)
    ensures n.next in t.mem && t.mem[n.next].isLeaf && t.Matches(n.next, t.mem[n.next])
    ensures |t.mem[n.next].keys| > 0 && LeastFrom(t.entries, k, t.mem[n.next].keys[0])
  {
    var y, r := n.next, t.mem[n];
    assert NodeOk(t.mem, n) && LeafStores(r, t.entries);
    var s := t.mem[y];
    NeighbourNonEmpty(t, y);
    assert Above(s.lo, s.keys[0]);
    forall z | z in t.entries && k <= z ensures s.keys[0] <= z {
      NoneLeftInLeaf(r, t.entries, k, z);
      if z < s.keys[0] { NoneBetween(s, t.entries, 0, z); }
    }
  }
}
