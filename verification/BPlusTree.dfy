/** The operations of internal/bplustree on the heap.  Each method edits node fields as
    the Go code does; `mem` records the fields together with heights and intervals, and
    BPlusShape says why each edit keeps the tree well-formed. */
module BPlusTree {
  import opened BPlusShape

  class Tree {
    var root: Node
    const maxKeys: int
    var count: int
    ghost var mem: Mem
    ghost var entries: map<Key, string>

    function MinKeys(): int { (maxKeys + 1) / 2 }

    ghost predicate Matches(n: Node, r: Rec)
      reads n
    {
      && n.isLeaf == r.isLeaf && n.keys == r.keys && n.parent == r.parent && n.children == r.children
      && (r.isLeaf ==> n.next == r.next && n.prev == r.prev && n.values == r.values)
    }

    /** The heap holds what mem says, except at the nodes of ahead. */
    ghost predicate Agrees(ahead: set<Node?>)
      reads this, mem.Keys
    {
      forall n: Node {:trigger Matches(n, mem[n])} :: n in mem && n !in ahead ==> Matches(n, mem[n])
    }

    ghost predicate Rooted()
      reads this
    {
      null in mem && mem[null].keys == [] && mem[null].children == [root]
    }

    ghost predicate Whole(loose: Node?)
      reads this, mem.Keys
    {
      Good(mem, entries, maxKeys, loose) && Agrees({}) && Rooted()
    }

    ghost predicate Valid()
      reads this, mem.Keys
    {
      Whole(null) && count == |entries|
    }

    constructor (max: int)
      ensures Valid() && entries == map[] && fresh(mem.Keys - {null})
      ensures maxKeys == (if max < 2 then 32 else if max % 2 != 0 then max + 1 else max)
    {
      var m := max;
      if m < 2 { m := 32; }
      if m % 2 != 0 { m := m + 1; }
      var r := new Node(true, [], [], [], null, null, null);
      root, maxKeys, count := r, m, 0;
      entries := map[];
      mem := map[null := Rec([], false, null, null, null, [r], [], 1, Inf, Inf),
                 r := Rec([], true, null, null, null, [], [], 0, Inf, Inf)];
      new;
      assert ChildOk(mem, null, mem[null], 0);
    }

    // -------------------------------------------------------------------- lookup

    method FindLeaf(key: Key) returns (leaf: Node)
      requires Inv(mem) && Agrees({}) && Rooted()
      ensures leaf in mem && mem[leaf].isLeaf && Holds(mem[leaf], key) && Matches(leaf, mem[leaf])
    {
      var current := root;
      assert NodeOk(mem, null) && ChildOk(mem, null, mem[null], 0);
      assert Matches(current, mem[current]);
      while !current.isLeaf
        invariant current in mem && Holds(mem[current], key) && Matches(current, mem[current])
        decreases mem[current].height
      {
        assert NodeOk(mem, current);
        var idx := 0;
        while idx < |current.keys| && key >= current.keys[idx]
          invariant 0 <= idx <= |current.keys|
          invariant idx > 0 ==> current.keys[idx - 1] <= key
        {
          idx := idx + 1;
        }
        assert ChildOk(mem, current, mem[current], idx);
        current := current.children[idx];
        assert Matches(current, mem[current]) && NodeOk(mem, current);
      }
      leaf := current;
    }

    /** The scan for the first key not below the given one. */
    static method LowerBound(ks: seq<Key>, key: Key) returns (idx: int)
      ensures 0 <= idx <= |ks|
      ensures forall i :: 0 <= i < idx ==> ks[i] < key
      ensures idx < |ks| ==> key <= ks[idx]
    {
      idx := 0;
      while idx < |ks| && ks[idx] < key
        invariant 0 <= idx <= |ks|
        invariant forall i :: 0 <= i < idx ==> ks[i] < key
      {
        idx := idx + 1;
      }
    }

    /** The scan for an equal key. */
    static method IndexOf(ks: seq<Key>, key: Key) returns (idx: int)
      ensures -1 <= idx < |ks|
      ensures idx == -1 ==> key !in ks
      ensures idx >= 0 ==> ks[idx] == key
    {
      for i := 0 to |ks|
        invariant key !in ks[..i]
      {
        if ks[i] == key { return i; }
      }
      return -1;
    }

    method Search(key: Key) returns (value: string, found: bool)
      requires Valid()
      ensures found <==> key in entries
      ensures value == if found then entries[key] else ""
    {
      if count == 0 {
        assert entries == map[];
        return "", false;
      }
      var leaf := FindLeaf(key);
      assert LeafStores(mem[leaf], entries);
      var i := IndexOf(leaf.keys, key);
      if i >= 0 { return leaf.values[i], true; }
      return "", false;
    }

    // ----------------------------------------------------------------- insertion

    method Insert(key: Key, value: string)
      requires Valid()
      modifies this, mem.Keys
      ensures Valid() && fresh(mem.Keys - old(mem.Keys))
      ensures entries == old(entries)[key := value]
    {
      var leaf := FindLeaf(key);
      var idx := LowerBound(leaf.keys, key);
      if idx < |leaf.keys| && leaf.keys[idx] == key {
        Overwrite(leaf, idx, key, value);
        return;
      }
      AddToLeaf(leaf, idx, key, value);
      if |leaf.keys| > maxKeys {
        SplitLeaf(leaf);
      }
    }

    method Overwrite(leaf: Node, idx: int, key: Key, value: string)
      requires Valid() && leaf in mem && mem[leaf].isLeaf && 0 <= idx < |mem[leaf].keys| && mem[leaf].keys[idx] == key
      modifies leaf`values, this`mem, this`entries
      ensures Valid() && mem.Keys == old(mem.Keys) && entries == old(entries)[key := value]
    {
      assert Matches(leaf, mem[leaf]);
      ghost var w := OverwriteStep(mem, entries, maxKeys, leaf, idx, value);
      leaf.values := leaf.values[idx := value];
      mem, entries := w, entries[key := value];
      assert entries.Keys == old(entries).Keys;
      assert forall n: Node :: n in mem ==> old(Matches(n, mem[n]));
    }

    method AddToLeaf(leaf: Node, idx: int, key: Key, value: string)
      requires Valid() && leaf in mem && mem[leaf].isLeaf && Holds(mem[leaf], key)
      requires 0 <= idx <= |mem[leaf].keys|
      requires idx > 0 ==> mem[leaf].keys[idx - 1] < key
      requires idx < |mem[leaf].keys| ==> key < mem[leaf].keys[idx]
      modifies leaf`keys, leaf`values, this`mem, this`entries, this`count
      ensures Whole(if |leaf.keys| > maxKeys then leaf else null) && count == |entries| && mem.Keys == old(mem.Keys)
      ensures mem[leaf].isLeaf && mem[leaf].keys == leaf.keys && |leaf.keys| <= maxKeys + 1
      ensures entries == old(entries)[key := value]
    {
      hide Good, Inv, NodeOk;
      assert Matches(leaf, mem[leaf]);
      ghost var w := AddStep(mem, entries, maxKeys, leaf, idx, key, value);
      leaf.keys := InsertAt(leaf.keys, idx, key);
      leaf.values := InsertAt(leaf.values, idx, value);
      assert Matches(leaf, w[leaf]);
      forall n: Node | n in w && n != leaf
        ensures Matches(n, w[n])
      {
        assert old(Matches(n, mem[n])) && w[n] == mem[n];
      }
      entries, count := entries[key := value], count + 1;
      Adopt(w, if |leaf.keys| > maxKeys then leaf else null);
    }

    /** mem already counts right among the children of left's parent p; the heap does not. */
    ghost predicate PendingInsert(left: Node, key: Key, right: Node, p: Node?, i: int)
      reads this, mem.Keys
    {
      && p in mem && right in mem
      && Ahead(mem, entries, maxKeys, left, key, right, p, i, if p == null then [] else p.keys, if p == null then [left] else p.children)
      && Agrees({p, right})
      && Matches(right, mem[right].(parent := right.parent))
      && (if p == null then root == left else
            Rooted() && Matches(p, mem[p].(keys := p.keys, children := p.children)))
    }

    method SplitLeaf(leaf: Node)
      requires Whole(leaf) && leaf in mem && mem[leaf].isLeaf && |mem[leaf].keys| == maxKeys + 1
      modifies this`root, this`mem, mem.Keys
      ensures Whole(null) && fresh(mem.Keys - old(mem.Keys))
    {
      var right, i := CutLeafInTwo(leaf);
      InsertIntoParent(leaf, right.keys[0], right, i);
    }

    /** The pointer work of splitLeaf. */
    static method DetachUpperHalf(leaf: Node) returns (right: Node)
      requires |leaf.keys| == |leaf.values| && leaf.next != leaf
      modifies leaf`keys, leaf`values, leaf`next, (if leaf.next == null then {} else {leaf.next})`prev
      ensures fresh(right) && right.isLeaf && right.parent == null && right.children == []
      ensures var mid := old(|leaf.keys| / 2);
        && right.keys == old(leaf.keys[mid..]) && right.values == old(leaf.values[mid..])
        && leaf.keys == old(leaf.keys[..mid]) && leaf.values == old(leaf.values[..mid])
      ensures right.prev == leaf && right.next == old(leaf.next) && leaf.next == right
      ensures right.next != null ==> right.next.prev == right
    {
      var mid := |leaf.keys| / 2;
      right := new Node(true, leaf.keys[mid..], leaf.values[mid..], [], null, leaf, leaf.next);
      if leaf.next != null {
        leaf.next.prev := right;
      }
      leaf.next := right;
      leaf.keys := leaf.keys[..mid];
      leaf.values := leaf.values[..mid];
    }

    method CutLeafInTwo(leaf: Node) returns (right: Node, ghost i: int)
      requires Whole(leaf) && leaf in mem && mem[leaf].isLeaf && |mem[leaf].keys| == maxKeys + 1
      modifies this`mem, mem.Keys
      ensures fresh(right) && mem.Keys == old(mem.Keys) + {right}
      ensures |right.keys| > 0 && PendingInsert(leaf, right.keys[0], right, mem[leaf].parent, i)
    {
      hide Good, Inv, NodeOk, Ahead;
      assert Matches(leaf, mem[leaf]);
      LeafIn(mem, entries, maxKeys, leaf, leaf);
      right := DetachUpperHalf(leaf);
      ghost var w, pos := CutLeafStep(mem, entries, maxKeys, leaf, right);
      ghost var p := mem[leaf].parent;
      i := pos;
      forall n: Node | n in w && n != p && n != right
        ensures Matches(n, w[n])
      {
        if n != leaf { assert old(Matches(n, mem[n])); }
      }
      if p != null { assert old(Matches(p, mem[p])); }
      mem := w;
    }

    method InsertIntoParent(left: Node, key: Key, right: Node, ghost i: int)
      requires left in mem && PendingInsert(left, key, right, mem[left].parent, i)
      modifies this`root, this`mem, mem.Keys
      ensures Whole(null) && fresh(mem.Keys - old(mem.Keys))
      decreases mem[null].height - mem[left].height, 1
    {
      assert Matches(left, mem[left]);
      if left.parent == null {
        GrowRoot(left, key, right);
        return;
      }
      var parent := left.parent;
      LinkIntoParent(parent, key, right, i, left);
      if |parent.keys| > maxKeys {
        SplitInternal(parent);
      }
    }

    method GrowRoot(left: Node, key: Key, right: Node)
      requires left in mem && PendingInsert(left, key, right, null, 0)
      modifies this`root, this`mem, left`parent, right`parent
      ensures Whole(null) && fresh(mem.Keys - old(mem.Keys))
    {
      var newRoot := new Node(false, [key], [], [left, right], null, null, null);
      ghost var w := GrowStep(mem, entries, maxKeys, left, key, right, newRoot);
      assert Matches(left, mem[left]);
      left.parent := newRoot;
      right.parent := newRoot;
      root := newRoot;
      forall n: Node | n in w
        ensures Matches(n, w[n])
      {
        if n != left && n != right && n != newRoot { assert old(Matches(n, mem[n])); }
      }
      mem := w;
    }

    method LinkIntoParent(parent: Node, key: Key, right: Node, ghost i: int, ghost left: Node)
      requires left in mem && PendingInsert(left, key, right, parent, i)
      modifies parent`keys, parent`children, right`parent
      ensures Whole(if |parent.keys| > maxKeys then parent else null)
      ensures parent.keys == mem[parent].keys && |parent.keys| <= maxKeys + 1 && !mem[parent].isLeaf
    {
      LinkStep(mem, entries, maxKeys, left, key, right, parent, i, parent.keys, parent.children);
      var idx := LowerBound(parent.keys, key);
      ScanFindsSlot(parent.keys, i, key, idx);
      parent.keys := InsertAt(parent.keys, idx, key);
      parent.children := InsertAt(parent.children, idx + 1, right);
      right.parent := parent;
      forall n: Node | n in mem
        ensures Matches(n, mem[n])
      {
        if n != parent && n != right { assert old(Matches(n, mem[n])); }
      }
    }

    method SplitInternal(internal: Node)
      requires Whole(internal) && internal in mem && !mem[internal].isLeaf && |mem[internal].keys| == maxKeys + 1
      modifies this`root, this`mem, mem.Keys
      ensures Whole(null) && fresh(mem.Keys - old(mem.Keys))
      decreases mem[null].height - mem[internal].height, 2
    {
      assert Matches(internal, mem[internal]);
      var midKey := internal.keys[|internal.keys| / 2];
      var right, i := CutInternalInTwo(internal);
      InsertIntoParent(internal, midKey, right, i);
    }

    /** The pointer work of splitInternal. */
    static method DetachUpperChildren(internal: Node) returns (right: Node)
      requires 0 < |internal.keys| && |internal.children| == |internal.keys| + 1 && internal !in internal.children
      modifies internal`keys, internal`children, (set c | c in internal.children)`parent
      ensures fresh(right) && !right.isLeaf && right.parent == internal.parent == old(internal.parent)
      ensures var mid := old(|internal.keys| / 2);
        && right.keys == old(internal.keys[mid + 1..]) && right.children == old(internal.children[mid + 1..])
        && internal.keys == old(internal.keys[..mid]) && internal.children == old(internal.children[..mid + 1])
      ensures forall c :: c in old(internal.children) ==> c.parent == if c in right.children then right else old(c.parent)
    {
      var mid := |internal.keys| / 2;
      right := new Node(false, internal.keys[mid + 1..], [], internal.children[mid + 1..], internal.parent, null, null);
      forall c | c in right.children {
        c.parent := right;
      }
      internal.keys := internal.keys[..mid];
      internal.children := internal.children[..mid + 1];
    }

    method CutInternalInTwo(internal: Node) returns (right: Node, ghost i: int)
      requires Whole(internal) && internal in mem && !mem[internal].isLeaf && |mem[internal].keys| == maxKeys + 1
      modifies this`mem, mem.Keys
      ensures fresh(right) && mem.Keys == old(mem.Keys) + {right}
      ensures PendingInsert(internal, old(mem[internal].keys[|mem[internal].keys| / 2]), right, mem[internal].parent, i)
      ensures mem[internal].height == old(mem[internal].height) && mem[null].height == old(mem[null].height)
    {
      assert Matches(internal, mem[internal]) && NodeOk(mem, internal);
      Kids(mem, internal);
      right := DetachUpperChildren(internal);
      ghost var w, pos := CutInnerStep(mem, entries, maxKeys, internal, right);
      ghost var p := mem[internal].parent;
      i := pos;
      forall n: Node | n in w && n != p && n != right
        ensures Matches(n, w[n])
      {
        if n != internal { assert old(Matches(n, mem[n])); }
      }
      if p != null { assert old(Matches(p, mem[p])); }
      mem := w;
    }

    // ------------------------------------------------------------------ deletion

    method Delete(key: Key) returns (deleted: bool)
      requires Valid()
      modifies this, mem.Keys
      ensures Valid() && mem.Keys <= old(mem.Keys)
      ensures deleted <==> key in old(entries)
      ensures entries == old(entries) - {key}
    {
      if count == 0 {
        assert entries == map[];
        return false;
      }
      var leaf := FindLeaf(key);
      var idx := IndexOf(leaf.keys, key);
      if idx == -1 {
        assert LeafStores(mem[leaf], entries);
        assert entries - {key} == entries;
        return false;
      }
      DeleteFromLeaf(leaf, idx);
      count := count - 1;
      assert |old(entries) - {key}| == |old(entries)| - 1 by {
        assert (old(entries) - {key}).Keys == old(entries).Keys - {key};
      }
      return true;
    }

    method DeleteFromLeaf(leaf: Node, idx: int)
      requires Whole(null) && leaf in mem && mem[leaf].isLeaf && 0 <= idx < |mem[leaf].keys|
      modifies this`root, this`mem, this`entries, mem.Keys
      ensures Whole(null) && mem.Keys <= old(mem.Keys)
      ensures old(mem[leaf].keys[idx] in entries) && entries == old(entries) - {old(mem[leaf].keys[idx])}
    {
      DropFromLeaf(leaf, idx);
      OnlyRoot(mem, root);
      assert Matches(leaf, mem[leaf]);
      if leaf == root {
        Mended(mem, entries, maxKeys, leaf);
        return;
      }
      UpdateParentSeparatorAfterLeafDelete(leaf);
      assert Matches(leaf, mem[leaf]);
      if |leaf.keys| < MinKeys() {
        RebalanceLeaf(leaf);
      } else {
        Mended(mem, entries, maxKeys, leaf);
      }
    }

    method DropFromLeaf(leaf: Node, idx: int)
      requires Whole(null) && leaf in mem && mem[leaf].isLeaf && 0 <= idx < |mem[leaf].keys|
      modifies this`mem, this`entries, leaf`keys, leaf`values
      ensures Whole(leaf) && mem.Keys == old(mem.Keys) && mem[leaf].isLeaf && OneShort(mem[leaf], maxKeys)
      ensures old(mem[leaf].keys[idx] in entries) && entries == old(entries) - {old(mem[leaf].keys[idx])}
    {
      assert Matches(leaf, mem[leaf]);
      ghost var w := DropStep(mem, entries, maxKeys, leaf, idx);
      ghost var k := leaf.keys[idx];
      leaf.keys := RemoveAt(leaf.keys, idx);
      leaf.values := RemoveAt(leaf.values, idx);
      mem, entries := w, entries - {k};
      assert forall n: Node :: n in mem ==> old(Matches(n, mem[n]));
    }

    static method FindNodeIndex(child: Node) returns (idx: int)
      ensures child.parent == null ==> idx == -1
      ensures child.parent != null && child !in child.parent.children ==> idx == -1
      ensures child.parent != null && child in child.parent.children ==>
                0 <= idx < |child.parent.children| && child.parent.children[idx] == child
                && child !in child.parent.children[..idx]
    {
      if child.parent == null { return -1; }
      for i := 0 to |child.parent.children|
        invariant child !in child.parent.children[..i]
      {
        if child.parent.children[i] == child { return i; }
      }
      return -1;
    }

    /** leaf is a non-root leaf that may be one key short. */
    ghost predicate ShortLeaf(leaf: Node)
      reads this, mem.Keys
    {
      Lighter(leaf) && mem[leaf].parent != null
    }

    /** A leaf that has just lost a key. */
    ghost predicate Lighter(leaf: Node)
      reads this, mem.Keys
    {
      Whole(leaf) && leaf in mem && mem[leaf].isLeaf && OneShort(mem[leaf], maxKeys)
    }

    /** The separator before the leaf is the leaf's first key, the others are as they were. */
    static predicate Raised(keys: seq<Key>, children: seq<Node>, leaf: Node, first: seq<Key>, keys': seq<Key>) {
      |keys'| == |keys| && |children| == |keys| + 1 &&
      forall i :: 0 <= i < |keys| ==> keys'[i] == if first != [] && children[i + 1] == leaf then first[0] else keys[i]
    }

    method UpdateParentSeparatorAfterLeafDelete(leaf: Node)
      requires Lighter(leaf)
      modifies this`mem, mem.Keys`keys
      ensures Lighter(leaf) && mem.Keys == old(mem.Keys) && leaf.keys == old(leaf.keys) && mem[leaf].parent == old(mem[leaf].parent)
      ensures leaf.parent == old(leaf.parent)
      ensures leaf.parent != null ==> Raised(old(leaf.parent.keys), leaf.parent.children, leaf, leaf.keys, leaf.parent.keys)
      ensures forall n :: n in mem && n != null && n != leaf.parent ==> n.keys == old(n.keys)
    {
      assert Matches(leaf, mem[leaf]) && NodeOk(mem, leaf);
      if leaf.parent == null { return; }
      var parent := leaf.parent;
      assert Matches(parent, mem[parent]) && NodeOk(mem, parent);
      var nodeIdx := FindNodeIndex(leaf);
      if nodeIdx == -1 { return; }
      OnlyPlace(mem, parent, nodeIdx, leaf);
      if nodeIdx > 0 && |leaf.keys| > 0 {
        RaiseSeparator(leaf, nodeIdx);
      }
    }

    method RaiseSeparator(leaf: Node, nodeIdx: int)
      requires ShortLeaf(leaf) && leaf.parent != null && |leaf.keys| > 0
      requires 0 < nodeIdx < |leaf.parent.children| && leaf.parent.children[nodeIdx] == leaf
      modifies this`mem, leaf.parent`keys
      ensures ShortLeaf(leaf) && mem.Keys == old(mem.Keys) && leaf.keys == old(leaf.keys)
      ensures mem[leaf].parent == old(mem[leaf].parent)
      ensures |old(leaf.parent.keys)| >= nodeIdx && leaf.parent.keys == old(leaf.parent.keys)[nodeIdx - 1 := leaf.keys[0]]
    {
      var parent := leaf.parent;
      assert Matches(leaf, mem[leaf]) && NodeOk(mem, leaf);
      assert Matches(parent, mem[parent]) && NodeOk(mem, parent);
      ghost var w := SeparatorStep(mem, entries, maxKeys, parent, nodeIdx - 1, leaf);
      parent.keys := parent.keys[nodeIdx - 1 := leaf.keys[0]];
      forall n: Node | n in w
        ensures Matches(n, w[n])
      {
        assert old(Matches(n, mem[n]));
      }
      mem := w;
    }

    method RebalanceLeaf(leaf: Node)
      requires ShortLeaf(leaf) && |mem[leaf].keys| < MinKeys()
      modifies this`root, this`mem, mem.Keys
      ensures Whole(null) && mem.Keys <= old(mem.Keys)
    {
      assert Matches(leaf, mem[leaf]) && NodeOk(mem, leaf);
      var parent := leaf.parent;
      assert Matches(parent, mem[parent]) && NodeOk(mem, parent) && SizeOk(mem[parent], maxKeys);
      var nodeIdx := FindNodeIndex(leaf);
      ChainSiblings(mem, parent, nodeIdx, leaf);
      var leftSibling, rightSibling := leaf.prev, leaf.next;
      if leftSibling != null { assert Matches(leftSibling, mem[leftSibling]); }
      if rightSibling != null { assert Matches(rightSibling, mem[rightSibling]); }
      if leftSibling != null && leftSibling.parent == parent && |leftSibling.keys| > MinKeys() {
        BorrowFromLeftLeaf(leaf, leftSibling, nodeIdx);
      } else if rightSibling != null && rightSibling.parent == parent && |rightSibling.keys| > MinKeys() {
        BorrowFromRightLeaf(leaf, rightSibling, nodeIdx);
      } else if leftSibling != null && leftSibling.parent == parent {
        assert SizeOk(mem[leftSibling], maxKeys);
        MergeWithLeftLeaf(leaf, leftSibling, nodeIdx);
      } else if rightSibling != null && rightSibling.parent == parent {
        assert SizeOk(mem[rightSibling], maxKeys);
        MergeWithRightLeaf(leaf, rightSibling, nodeIdx);
      }
    }

    ghost predicate AdjacentLeaves(p: Node, i: int, left: Node, right: Node, short: Node)
      reads this, mem.Keys
    {
      && Whole(short) && Adjacent(mem, p, i, left, right) && (short == left || short == right)
      && mem[left].isLeaf && mem[right].isLeaf && left != right
      && |mem[short].keys| == MinKeys() - 1
    }

    /** The last entry of left moves to the front of right. */
    static method MoveLastEntry(left: Node, right: Node)
      requires left != right && |left.keys| == |left.values| > 0
      modifies left`keys, left`values, right`keys, right`values
      ensures left.keys == old((left.keys + right.keys)[..|left.keys| - 1])
      ensures left.values == old((left.values + right.values)[..|left.keys| - 1])
      ensures right.keys == old((left.keys + right.keys)[|left.keys| - 1..])
      ensures right.values == old((left.values + right.values)[|left.keys| - 1..])
    {
      MoveLast(left.keys, right.keys);
      MoveLast(left.values, right.values);
      var borrowedKey := left.keys[|left.keys| - 1];
      var borrowedValue := left.values[|left.values| - 1];
      left.keys := left.keys[..|left.keys| - 1];
      left.values := left.values[..|left.values| - 1];
      right.keys := [borrowedKey] + right.keys;
      right.values := [borrowedValue] + right.values;
    }

    /** The first entry of right moves to the end of left. */
    static method MoveFirstEntry(left: Node, right: Node)
      requires left != right && |right.keys| == |right.values| > 0 && |left.keys| == |left.values|
      modifies left`keys, left`values, right`keys, right`values
      ensures left.keys == old((left.keys + right.keys)[..|left.keys| + 1])
      ensures left.values == old((left.values + right.values)[..|left.keys| + 1])
      ensures right.keys == old((left.keys + right.keys)[|left.keys| + 1..])
      ensures right.values == old((left.values + right.values)[|left.keys| + 1..])
    {
      MoveFirst(left.keys, right.keys);
      MoveFirst(left.values, right.values);
      var borrowedKey, borrowedValue := right.keys[0], right.values[0];
      right.keys := right.keys[1..];
      right.values := right.values[1..];
      left.keys := left.keys + [borrowedKey];
      left.values := left.values + [borrowedValue];
    }

    /** Besides, the separator between the two follows. */
    static method MoveLastThrough(left: Node, right: Node, parent: Node, i: int)
      requires left != right && parent != left && parent != right && |left.keys| == |left.values| > 0 && 0 <= i < |parent.keys|
      modifies left`keys, left`values, right`keys, right`values, parent`keys
      ensures left.keys == old((left.keys + right.keys)[..|left.keys| - 1])
      ensures left.values == old((left.values + right.values)[..|left.keys| - 1])
      ensures right.keys == old((left.keys + right.keys)[|left.keys| - 1..])
      ensures right.values == old((left.values + right.values)[|left.keys| - 1..])
      ensures parent.keys == old(parent.keys[i := (left.keys + right.keys)[|left.keys| - 1]])
    {
      MoveLastEntry(left, right);
      parent.keys := parent.keys[i := right.keys[0]];
    }

    /** The heap is what w says, so w becomes mem. */
    ghost method Adopt(w: Mem, loose: Node?)
      requires Good(w, entries, maxKeys, loose) && null in w && w[null].keys == [] && w[null].children == [root]
      requires forall n: Node {:trigger Matches(n, w[n])} :: n in w ==> Matches(n, w[n])
      modifies this`mem
      ensures Whole(loose) && mem == w
    {
      hide Good;
      mem := w;
    }

    method BorrowFromLeftLeaf(leaf: Node, leftSibling: Node, nodeIdx: int)
      requires leaf in mem && leaf.parent != null && AdjacentLeaves(leaf.parent, nodeIdx - 1, leftSibling, leaf, leaf)
      requires MinKeys() < |mem[leftSibling].keys|
      modifies this`mem, mem.Keys`keys, mem.Keys`values
      ensures Whole(null) && mem.Keys == old(mem.Keys)
    {
      hide Good, Inv, NodeOk;
      var parent := leaf.parent;
      assert Matches(leaf, mem[leaf]) && Matches(leftSibling, mem[leftSibling]) && Matches(parent, mem[parent]);
      SizeIn(mem, entries, maxKeys, leaf, leftSibling);
      ghost var w := ShiftLeavesStep(mem, entries, maxKeys, parent, nodeIdx - 1, leftSibling, leaf,
                                     |leftSibling.keys| - 1, leaf, null);
      MoveLastThrough(leftSibling, leaf, parent, nodeIdx - 1);
      assert Matches(leaf, w[leaf]) && Matches(leftSibling, w[leftSibling]) && Matches(parent, w[parent]);
      forall n: Node | n in w && n != leaf && n != leftSibling && n != parent
        ensures Matches(n, w[n])
      {
        assert old(Matches(n, mem[n])) && w[n] == mem[n];
      }
      Adopt(w, null);
    }

    method BorrowFromRightLeaf(leaf: Node, rightSibling: Node, nodeIdx: int)
      requires leaf in mem && leaf.parent != null && AdjacentLeaves(leaf.parent, nodeIdx, leaf, rightSibling, leaf)
      requires MinKeys() < |mem[rightSibling].keys|
      modifies this`mem, mem.Keys`keys, mem.Keys`values
      ensures Whole(null) && mem.Keys == old(mem.Keys)
    {
      hide Good, Inv, NodeOk;
      var parent := leaf.parent;
      assert Matches(leaf, mem[leaf]) && Matches(rightSibling, mem[rightSibling]) && Matches(parent, mem[parent]);
      SizeIn(mem, entries, maxKeys, leaf, rightSibling);
      ghost var w := ShiftLeavesStep(mem, entries, maxKeys, parent, nodeIdx, leaf, rightSibling,
                                     |leaf.keys| + 1, leaf, null);
      MoveFirstEntry(leaf, rightSibling);
      assert rightSibling.keys[0] == old((leaf.keys + rightSibling.keys)[|leaf.keys| + 1]);
      parent.keys := parent.keys[nodeIdx := rightSibling.keys[0]];
      assert Matches(leaf, w[leaf]) && Matches(rightSibling, w[rightSibling]) && Matches(parent, w[parent]);
      forall n: Node | n in w && n != leaf && n != rightSibling && n != parent
        ensures Matches(n, w[n])
      {
        assert old(Matches(n, mem[n])) && w[n] == mem[n];
      }
      Adopt(w, null);
    }

    /** mem has already dropped separator keyIdx and child childIdx of p; the heap has not. */
    ghost predicate PendingRemove(p: Node, keyIdx: int, childIdx: int)
      reads this, mem.Keys
    {
      && p in mem && Shrunk(mem, entries, maxKeys, p, keyIdx, childIdx, p.keys, p.children)
      && Agrees({p}) && Rooted()
      && Matches(p, mem[p].(keys := p.keys, children := p.children))
    }

    method MergeWithLeftLeaf(leaf: Node, leftSibling: Node, nodeIdx: int)
      requires leaf in mem && leaf.parent != null && AdjacentLeaves(leaf.parent, nodeIdx - 1, leftSibling, leaf, leaf)
      requires |mem[leftSibling].keys| == MinKeys()
      modifies this`root, this`mem, mem.Keys
      ensures Whole(null) && mem.Keys <= old(mem.Keys)
    {
      var parent := leaf.parent;
      AbsorbLeaf(leftSibling, leaf, parent, nodeIdx - 1, leaf);
      RemoveChildFromInternal(parent, nodeIdx - 1, nodeIdx);
    }

    method MergeWithRightLeaf(leaf: Node, rightSibling: Node, nodeIdx: int)
      requires leaf in mem && leaf.parent != null && AdjacentLeaves(leaf.parent, nodeIdx, leaf, rightSibling, leaf)
      requires |mem[rightSibling].keys| == MinKeys()
      modifies this`root, this`mem, mem.Keys
      ensures Whole(null) && mem.Keys <= old(mem.Keys)
    {
      var parent := leaf.parent;
      AbsorbLeaf(leaf, rightSibling, parent, nodeIdx, leaf);
      RemoveChildFromInternal(parent, nodeIdx, nodeIdx + 1);
    }

    /** left takes over the entries and the successor of right. */
    static method JoinChain(left: Node, right: Node)
      requires left != right && right.next != left && right.next != right
      modifies left`keys, left`values, left`next, (if right.next == null then {} else {right.next})`prev
      ensures left.keys == old(left.keys + right.keys) && left.values == old(left.values + right.values)
      ensures left.next == old(right.next) && (left.next != null ==> left.next.prev == left)
    {
      left.keys := left.keys + right.keys;
      left.values := left.values + right.values;
      left.next := right.next;
      if right.next != null {
        right.next.prev := left;
      }
    }

    method AbsorbLeaf(left: Node, right: Node, ghost p: Node, ghost i: int, ghost short: Node)
      requires AdjacentLeaves(p, i, left, right, short)
      requires |mem[left].keys| + |mem[right].keys| == 2 * MinKeys() - 1
      modifies this`mem, mem.Keys`keys, mem.Keys`values, mem.Keys`next, mem.Keys`prev
      ensures PendingRemove(p, i, i + 1) && mem.Keys <= old(mem.Keys)
    {
      assert Matches(left, mem[left]) && Matches(right, mem[right]) && Matches(p, mem[p]);
      ghost var w := MergeLeavesStep(mem, entries, maxKeys, p, i, left, right, short);
      JoinChain(left, right);
      forall n: Node | n in w && n != p
        ensures Matches(n, w[n])
      {
        assert old(Matches(n, mem[n]));
      }
      mem := w;
    }

    method RemoveChildFromInternal(parent: Node, keyIdx: int, childIdx: int)
      requires PendingRemove(parent, keyIdx, childIdx)
      modifies this`root, this`mem, mem.Keys
      ensures Whole(null) && mem.Keys <= old(mem.Keys)
      decreases mem[null].height - mem[parent].height, 1
    {
      UnlinkChild(parent, keyIdx, childIdx);
      OnlyRoot(mem, root);
      assert Matches(parent, mem[parent]) && NodeOk(mem, parent);
      if parent == root {
        if |parent.keys| == 0 && |parent.children| == 1 {
          CollapseRoot();
        } else {
          Mended(mem, entries, maxKeys, parent);
        }
        return;
      }
      if |parent.keys| < MinKeys() {
        RebalanceInternal(parent);
      } else {
        Mended(mem, entries, maxKeys, parent);
      }
    }

    method UnlinkChild(parent: Node, keyIdx: int, childIdx: int)
      requires PendingRemove(parent, keyIdx, childIdx)
      modifies parent`keys, parent`children
      ensures Whole(parent) && OneShort(mem[parent], maxKeys)
    {
      parent.keys := RemoveAt(parent.keys, keyIdx);
      parent.children := RemoveAt(parent.children, childIdx);
      forall n: Node | n in mem
        ensures Matches(n, mem[n])
      {
        if n != parent { assert old(Matches(n, mem[n])); }
      }
    }

    method CollapseRoot()
      requires Whole(root) && root in mem && !mem[root].isLeaf && |mem[root].children| == 1
      modifies this`root, this`mem, mem.Keys`parent
      ensures Whole(null) && mem.Keys <= old(mem.Keys)
    {
      assert Matches(root, mem[root]) && NodeOk(mem, root);
      ghost var w := CollapseStep(mem, entries, maxKeys, root, root.children[0]);
      root := root.children[0];
      assert Matches(root, mem[root]);
      root.parent := null;
      forall n: Node | n in w
        ensures Matches(n, w[n])
      {
        assert old(Matches(n, mem[n]));
      }
      mem := w;
    }

    method RebalanceInternal(internal: Node)
      requires Whole(internal) && internal in mem && !mem[internal].isLeaf && mem[internal].parent != null
      requires |mem[internal].keys| == MinKeys() - 1
      modifies this`root, this`mem, mem.Keys
      ensures Whole(null) && mem.Keys <= old(mem.Keys)
      decreases mem[null].height - mem[internal].height, 0
    {
      assert Matches(internal, mem[internal]) && NodeOk(mem, internal);
      var parent := internal.parent;
      assert Matches(parent, mem[parent]) && NodeOk(mem, parent);
      var nodeIdx := FindNodeIndex(internal);
      assert ChildOk(mem, parent, mem[parent], nodeIdx) && SizeOk(mem[parent], maxKeys);
      var leftSibling: Node?, rightSibling: Node? := null, null;
      if nodeIdx > 0 {
        leftSibling := parent.children[nodeIdx - 1];
        assert ChildOk(mem, parent, mem[parent], nodeIdx - 1);
        AdjacentSlots(mem, parent, nodeIdx - 1, leftSibling, internal);
        assert SizeOk(mem[leftSibling], maxKeys) && Matches(leftSibling, mem[leftSibling]);
      }
      if nodeIdx < |parent.children| - 1 {
        rightSibling := parent.children[nodeIdx + 1];
        assert ChildOk(mem, parent, mem[parent], nodeIdx + 1);
        AdjacentSlots(mem, parent, nodeIdx, internal, rightSibling);
        assert SizeOk(mem[rightSibling], maxKeys) && Matches(rightSibling, mem[rightSibling]);
      }
      if leftSibling != null && |leftSibling.keys| > MinKeys() {
        BorrowFromLeftInternal(internal, leftSibling, nodeIdx);
      } else if rightSibling != null && |rightSibling.keys| > MinKeys() {
        BorrowFromRightInternal(internal, rightSibling, nodeIdx);
      } else if leftSibling != null {
        MergeWithLeftInternal(internal, leftSibling, nodeIdx);
      } else if rightSibling != null {
        MergeWithRightInternal(internal, rightSibling, nodeIdx);
      }
    }

    ghost predicate AdjacentInner(p: Node, i: int, left: Node, right: Node, short: Node)
      reads this, mem.Keys
    {
      && Whole(short) && Adjacent(mem, p, i, left, right) && (short == left || short == right)
      && !mem[left].isLeaf && !mem[right].isLeaf && left != right
      && |mem[short].keys| == MinKeys() - 1
    }

    static method MoveLastChild(left: Node, separatorKey: Key, right: Node) returns (movedKey: Key)
      requires left != right && |left.keys| > 0 && |left.children| == |left.keys| + 1
      requires left.children[|left.keys|] != left && left.children[|left.keys|] != right
      modifies left`keys, left`children, right`keys, right`children, {left.children[|left.keys|]}`parent
      ensures movedKey == old(left.keys[|left.keys| - 1])
      ensures left.keys == old(left.keys[..|left.keys| - 1]) && left.children == old(left.children[..|left.keys|])
      ensures right.keys == [separatorKey] + old(right.keys)
      ensures right.children == [old(left.children[|left.keys|])] + old(right.children)
      ensures right.children[0].parent == right
    {
      movedKey := left.keys[|left.keys| - 1];
      var movedChild := left.children[|left.children| - 1];
      left.keys := left.keys[..|left.keys| - 1];
      left.children := left.children[..|left.children| - 1];
      right.keys := [separatorKey] + right.keys;
      right.children := [movedChild] + right.children;
      movedChild.parent := right;
    }

    static method MoveFirstChild(left: Node, separatorKey: Key, right: Node) returns (movedKey: Key)
      requires left != right && |right.keys| > 0 && |right.children| > 0
      requires right.children[0] != left && right.children[0] != right
      modifies left`keys, left`children, right`keys, right`children, {right.children[0]}`parent
      ensures movedKey == old(right.keys[0])
      ensures right.keys == old(right.keys[1..]) && right.children == old(right.children[1..])
      ensures left.keys == old(left.keys) + [separatorKey]
      ensures left.children == old(left.children) + [old(right.children[0])]
      ensures old(right.children[0]).parent == left
    {
      movedKey := right.keys[0];
      var movedChild := right.children[0];
      right.keys := right.keys[1..];
      right.children := right.children[1..];
      left.keys := left.keys + [separatorKey];
      left.children := left.children + [movedChild];
      movedChild.parent := left;
    }

    method BorrowFromLeftInternal(internal: Node, leftSibling: Node, nodeIdx: int)
      requires internal in mem && internal.parent != null
      requires AdjacentInner(internal.parent, nodeIdx - 1, leftSibling, internal, internal)
      requires MinKeys() < |mem[leftSibling].keys|
      modifies this`mem, mem.Keys`keys, mem.Keys`children, mem.Keys`parent
      ensures Whole(null) && mem.Keys == old(mem.Keys)
    {
      hide Good, Inv, NodeOk;
      var parent := internal.parent;
      assert Matches(internal, mem[internal]) && Matches(leftSibling, mem[leftSibling]) && Matches(parent, mem[parent]);
      SizeIn(mem, entries, maxKeys, internal, leftSibling);
      ghost var w := RotateRightStep(mem, entries, maxKeys, parent, nodeIdx - 1, leftSibling, internal);
      var movedKey := MoveLastChild(leftSibling, parent.keys[nodeIdx - 1], internal);
      parent.keys := parent.keys[nodeIdx - 1 := movedKey];
      forall n: Node | n in w
        ensures Matches(n, w[n])
      {
        assert old(Matches(n, mem[n]));
      }
      Adopt(w, null);
    }

    method BorrowFromRightInternal(internal: Node, rightSibling: Node, nodeIdx: int)
      requires internal in mem && internal.parent != null
      requires AdjacentInner(internal.parent, nodeIdx, internal, rightSibling, internal)
      requires MinKeys() < |mem[rightSibling].keys|
      modifies this`mem, mem.Keys`keys, mem.Keys`children, mem.Keys`parent
      ensures Whole(null) && mem.Keys == old(mem.Keys)
    {
      hide Good, Inv, NodeOk;
      var parent := internal.parent;
      assert Matches(internal, mem[internal]) && Matches(rightSibling, mem[rightSibling]) && Matches(parent, mem[parent]);
      SizeIn(mem, entries, maxKeys, internal, rightSibling);
      ghost var w := RotateLeftStep(mem, entries, maxKeys, parent, nodeIdx, internal, rightSibling);
      var movedKey := MoveFirstChild(internal, parent.keys[nodeIdx], rightSibling);
      parent.keys := parent.keys[nodeIdx := movedKey];
      forall n: Node | n in w
        ensures Matches(n, w[n])
      {
        assert old(Matches(n, mem[n]));
      }
      Adopt(w, null);
    }

    method MergeWithLeftInternal(internal: Node, leftSibling: Node, nodeIdx: int)
      requires internal in mem && internal.parent != null
      requires AdjacentInner(internal.parent, nodeIdx - 1, leftSibling, internal, internal)
      requires |mem[leftSibling].keys| == MinKeys() && mem[internal.parent].height == mem[internal].height + 1
      requires mem[internal].height < mem[null].height
      modifies this`root, this`mem, mem.Keys
      ensures Whole(null) && mem.Keys <= old(mem.Keys)
      decreases mem[null].height - mem[internal].height - 1, 2
    {
      var parent := internal.parent;
      assert Matches(parent, mem[parent]);
      AbsorbInternal(leftSibling, parent.keys[nodeIdx - 1], internal, parent, nodeIdx - 1, internal);
      RemoveChildFromInternal(parent, nodeIdx - 1, nodeIdx);
    }

    method MergeWithRightInternal(internal: Node, rightSibling: Node, nodeIdx: int)
      requires internal in mem && internal.parent != null
      requires AdjacentInner(internal.parent, nodeIdx, internal, rightSibling, internal)
      requires |mem[rightSibling].keys| == MinKeys() && mem[internal.parent].height == mem[internal].height + 1
      requires mem[internal].height < mem[null].height
      modifies this`root, this`mem, mem.Keys
      ensures Whole(null) && mem.Keys <= old(mem.Keys)
      decreases mem[null].height - mem[internal].height - 1, 2
    {
      var parent := internal.parent;
      assert Matches(parent, mem[parent]);
      AbsorbInternal(internal, parent.keys[nodeIdx], rightSibling, parent, nodeIdx, internal);
      RemoveChildFromInternal(parent, nodeIdx, nodeIdx + 1);
    }

    /** left takes over the separator and the children of right. */
    static method JoinChildren(left: Node, separatorKey: Key, right: Node)
      requires left != right && left !in right.children && right !in right.children
      modifies left`keys, left`children, (set c | c in right.children)`parent
      ensures left.keys == old(left.keys) + [separatorKey] + right.keys
      ensures left.children == old(left.children) + right.children
      ensures forall c :: c in right.children ==> c.parent == left
    {
      left.keys := left.keys + [separatorKey];
      left.keys := left.keys + right.keys;
      left.children := left.children + right.children;
      forall c | c in right.children {
        c.parent := left;
      }
    }

    method AbsorbInternal(left: Node, separatorKey: Key, right: Node, ghost p: Node, ghost i: int, ghost short: Node)
      requires AdjacentInner(p, i, left, right, short) && separatorKey == mem[p].keys[i]
      requires |mem[left].keys| + |mem[right].keys| == 2 * MinKeys() - 1
      modifies this`mem, mem.Keys`keys, mem.Keys`children, mem.Keys`parent
      ensures PendingRemove(p, i, i + 1) && mem.Keys <= old(mem.Keys)
      ensures mem[null].height == old(mem[null].height) && mem[p].height == old(mem[p].height)
    {
      assert Matches(left, mem[left]) && Matches(right, mem[right]) && Matches(p, mem[p]);
      ghost var w := MergeInnerStep(mem, entries, maxKeys, p, i, left, right, short);
      assert NodeOk(mem, left) && NodeOk(mem, right);
      Kids(mem, left);
      Kids(mem, right);
      JoinChildren(left, separatorKey, right);
      forall n: Node | n in w && n != p
        ensures Matches(n, w[n])
      {
        assert old(Matches(n, mem[n]));
      }
      mem := w;
    }

    // ----------------------------------------------------------------- range scan

    /** The entries with start <= key <= end, in key order; no result if start > end. */
    method RangeScan(start: Key, end: Key) returns (ok: bool, result: seq<(Key, string)>)
      requires Valid()
      ensures ok <==> start <= end
      ensures !ok ==> result == []
      ensures forall i, j :: 0 <= i < j < |result| ==> result[i].0 < result[j].0
      ensures forall i :: 0 <= i < |result| ==>
                start <= result[i].0 <= end && result[i].0 in entries && entries[result[i].0] == result[i].1
      ensures ok ==> forall k :: k in entries && start <= k <= end ==> exists i :: 0 <= i < |result| && result[i].0 == k
    {
      result := [];
      if start > end { return false, []; }
      ok := true;
      if count == 0 {
        assert entries == map[];
        return;
      }
      var leaf := FindLeaf(start);
      var i := LowerBound(leaf.keys, start);
      assert NodeOk(mem, leaf) && LeafStores(mem[leaf], entries);
      ListsStart(mem[leaf], entries, start, i);
      var current: Node? := leaf;
      while current != null
        invariant current != null ==> OnPath(current, start, i)
        invariant Lists(result, entries, start, if current == null then Inf else Frontier(mem[current], i))
        invariant forall j :: 0 <= j < |result| ==> result[j].0 <= end
        decreases Onward(mem, current)
      {
        OnwardShrinks(mem, current);
        var stop;
        stop, result := ScanLeaf(current, i, start, end, result);
        if stop { return; }
        if current.next != null {
          EnterLeaf(current, start);
          ListsAcross(result, entries, start, mem[current].hi, Frontier(mem[current.next], 0));
        }
        current := current.next;
        i := 0;
      }
      ListsStop(result, entries, start, end, Inf);
    }

    /** The part of the scan inside one leaf. */
    method ScanLeaf(current: Node, from: int, start: Key, end: Key, before: seq<(Key, string)>)
      returns (stop: bool, result: seq<(Key, string)>)
      requires OnPath(current, start, from)
      requires Lists(before, entries, start, Frontier(mem[current], from))
      requires forall j :: 0 <= j < |before| ==> before[j].0 <= end
      ensures exists hi :: Lists(result, entries, start, hi)
      ensures forall j :: 0 <= j < |result| ==> result[j].0 <= end
      ensures !stop ==> Lists(result, entries, start, mem[current].hi)
      ensures stop ==> forall k :: k in entries && start <= k <= end ==> exists i :: 0 <= i < |result| && result[i].0 == k
    {
      result := before;
      for i := from to |current.keys|
        invariant OnPath(current, start, i)
        invariant Lists(result, entries, start, Frontier(mem[current], i))
        invariant forall j :: 0 <= j < |result| ==> result[j].0 <= end
      {
        if current.keys[i] > end {
          ListsStop(result, entries, start, end, Frontier(mem[current], i));
          return true, result;
        }
        ListsNext(result, mem[current], entries, start, i);
        result := result + [(current.keys[i], current.values[i])];
      }
      return false, result;
    }

    ghost predicate OnPath(n: Node, start: Key, i: int)
      reads this, mem.Keys
    {
      && n in mem && mem[n].isLeaf && Matches(n, mem[n]) && LeafOk(mem[n]) && LeafStores(mem[n], entries)
      && Below(start, mem[n].hi)
      && 0 <= i <= |mem[n].keys| && (i < |mem[n].keys| ==> start <= mem[n].keys[i])
    }

    /** The next leaf begins where this one ends. */
    lemma EnterLeaf(n: Node, start: Key)
      requires Valid() && n in mem && mem[n].isLeaf && Matches(n, mem[n]) && n.next != null && Below(start, mem[n].hi)
      ensures OnPath(n.next, start, 0) && mem[n.next].lo == mem[n].hi
      ensures forall k :: k in entries && Below(k, Frontier(mem[n.next], 0)) ==> Below(k, mem[n].hi)
      ensures forall k :: Below(k, mem[n].hi) ==> Below(k, Frontier(mem[n.next], 0))
    {
      var y := n.next;
      assert NodeOk(mem, n);
      assert NodeOk(mem, y) && Matches(y, mem[y]) && LeafStores(mem[y], entries);
      forall k | k in entries && Below(k, Frontier(mem[y], 0)) && !Below(k, mem[n].hi)
        ensures false
      {
        if 0 < |mem[y].keys| { assert Below(mem[y].keys[0], mem[y].hi); }
        NoneBetween(mem[y], entries, 0, k);
      }
    }
  }
}
