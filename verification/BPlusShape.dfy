/** The nodes of the B+ tree and what a well-formed tree of them is.

    A tree is described by a map from nodes to the values of their fields, so that
    each rebalancing step is one update of that map and its proof is about values.
    The null key stands for a sentinel above the root: its only child is the root, and
    the children of a node with a nil parent link are the sentinel's. */
module BPlusShape {

  /** Only the order of keys matters to the tree.  GoStrings.RankOrder embeds Go's
      string order into the reals. */
  type Key = real

  /** One end of a node's key interval; Inf means unbounded. */
  datatype Bound = Inf | At(key: Key)

  class Node {
    var keys: seq<Key>
    var isLeaf: bool
    var parent: Node?
    var next: Node?
    var prev: Node?
    var children: seq<Node>
    var values: seq<string>

    constructor (isLeaf: bool, keys: seq<Key>, values: seq<string>, children: seq<Node>,
                 parent: Node?, prev: Node?, next: Node?)
      ensures this.isLeaf == isLeaf && this.keys == keys && this.values == values && this.children == children
      ensures this.parent == parent && this.prev == prev && this.next == next
    {
      this.isLeaf, this.keys, this.values, this.children := isLeaf, keys, values, children;
      this.parent, this.prev, this.next := parent, prev, next;
    }
  }

  /** The fields of a node, with its height and the key interval [lo, hi) it answers for. */
  datatype Rec = Rec(keys: seq<Key>, isLeaf: bool, parent: Node?, next: Node?, prev: Node?,
                     children: seq<Node>, values: seq<string>, height: int, lo: Bound, hi: Bound)

  type Mem = map<Node?, Rec>

  predicate Sorted(ks: seq<Key>) {
    forall i, j :: 0 <= i < j < |ks| ==> ks[i] < ks[j]
  }

  predicate Above(lo: Bound, k: Key) { lo.At? ==> lo.key <= k }

  predicate Below(k: Key, hi: Bound) { hi.At? ==> k < hi.key }

  predicate Holds(r: Rec, k: Key) { Above(r.lo, k) && Below(k, r.hi) }

  predicate Spans(lo: Bound, ks: seq<Key>, hi: Bound) {
    forall i :: 0 <= i < |ks| ==> Above(lo, ks[i]) && Below(ks[i], hi)
  }

  function InsertAt<T>(s: seq<T>, i: int, x: T): (r: seq<T>)
    requires 0 <= i <= |s|
    ensures |r| == |s| + 1
    ensures forall j :: 0 <= j < |r| ==> r[j] == if j < i then s[j] else if j == i then x else s[j - 1]
  {
    seq(|s| + 1, j requires 0 <= j <= |s| => if j < i then s[j] else if j == i then x else s[j - 1])
  }

  function RemoveAt<T>(s: seq<T>, i: int): (r: seq<T>)
    requires 0 <= i < |s|
    ensures |r| == |s| - 1
    ensures forall j :: 0 <= j < |r| ==> r[j] == if j < i then s[j] else s[j + 1]
  {
    seq(|s| - 1, j requires 0 <= j < |s| - 1 => if j < i then s[j] else s[j + 1])
  }

  // ------------------------------------------------------------------ invariant

  ghost predicate LeafOk(r: Rec) {
    && r.height == 0
    && |r.values| == |r.keys|
    && Sorted(r.keys)
    && Spans(r.lo, r.keys, r.hi)
  }

  ghost predicate SeparatorsOk(r: Rec) {
    && r.height > 0
    && |r.children| == |r.keys| + 1
    && Sorted(r.keys)
    && Spans(r.lo, r.keys, r.hi)
    && (r.lo.At? && r.keys != [] ==> r.lo.key < r.keys[0])
  }

  /** The interval of child i: between separators i-1 and i. */
  ghost function ChildLo(r: Rec, i: int): Bound
    requires 0 <= i <= |r.keys|
  {
    if i == 0 then r.lo else At(r.keys[i - 1])
  }

  ghost function ChildHi(r: Rec, i: int): Bound
    requires 0 <= i <= |r.keys|
  {
    if i == |r.keys| then r.hi else At(r.keys[i])
  }

  ghost predicate ChildOk(m: Mem, n: Node?, r: Rec, i: int)
    requires 0 <= i < |r.children| && |r.children| == |r.keys| + 1
  {
    var c := r.children[i];
    && c in m
    && m[c].parent == n
    && m[c].height == r.height - 1
    && m[c].lo == ChildLo(r, i)
    && m[c].hi == ChildHi(r, i)
  }

  ghost predicate InnerOk(m: Mem, n: Node?, r: Rec) {
    && SeparatorsOk(r)
    && (forall i {:trigger ChildOk(m, n, r, i)} :: 0 <= i < |r.children| ==> ChildOk(m, n, r, i))
  }

  ghost predicate Chained(m: Mem, n: Node?, r: Rec) {
    && (if r.next == null then r.hi == Inf else
          r.next in m && m[r.next].isLeaf && m[r.next].prev == n && r.hi.At? && m[r.next].lo == r.hi)
    && (if r.prev == null then r.lo == Inf else
          r.prev in m && m[r.prev].isLeaf && m[r.prev].next == n && r.lo.At? && m[r.prev].hi == r.lo)
  }

  ghost predicate Hangs(m: Mem, n: Node, r: Rec)
    requires null in m
  {
    && r.parent in m
    && !m[r.parent].isLeaf
    && n in m[r.parent].children
    && r.height < m[null].height
  }

  ghost predicate NodeOk(m: Mem, n: Node?)
    requires n in m && null in m
  {
    var r := m[n];
    && (r.lo.At? && r.hi.At? ==> r.lo.key < r.hi.key)
    && (r.isLeaf ==> LeafOk(r) && Chained(m, n, r))
    && (!r.isLeaf ==> InnerOk(m, n, r))
    && (n != null ==> Hangs(m, n, r))
  }

  ghost predicate Inv(m: Mem) {
    && null in m
    && !m[null].isLeaf && m[null].lo == Inf && m[null].hi == Inf && m[null].parent == null
    && (forall n {:trigger NodeOk(m, n)} :: n in m ==> NodeOk(m, n))
  }

  // --------------------------------------------------- consequences of the shape

  /** The position of a node among the children of its parent. */
  lemma Position(m: Mem, n: Node) returns (i: int)
    requires Inv(m) && n in m
    ensures m[n].parent in m && !m[m[n].parent].isLeaf && InnerOk(m, m[n].parent, m[m[n].parent])
    ensures 0 <= i < |m[m[n].parent].children| && m[m[n].parent].children[i] == n
    ensures ChildOk(m, m[n].parent, m[m[n].parent], i)
  {
    assert NodeOk(m, n);
    var p := m[n].parent;
    assert NodeOk(m, p);
    i :| 0 <= i < |m[p].children| && m[p].children[i] == n;
  }

  lemma HoldsUp(m: Mem, p: Node?, i: int, k: Key)
    requires Inv(m) && p in m && !m[p].isLeaf && 0 <= i < |m[p].children| && InnerOk(m, p, m[p])
    requires m[p].children[i] in m && Holds(m[m[p].children[i]], k)
    ensures Holds(m[p], k)
  {
    var r := m[p];
    assert ChildOk(m, p, r, i);
  }

  /** Two children of one node whose intervals meet are the same child. */
  lemma OneChild(m: Mem, p: Node?, i: int, j: int, k: Key)
    requires p in m && InnerOk(m, p, m[p])
    requires 0 <= i < |m[p].children| && 0 <= j < |m[p].children|
    requires m[p].children[i] in m && m[p].children[j] in m
    requires Holds(m[m[p].children[i]], k) && Holds(m[m[p].children[j]], k)
    ensures i == j
  {
    var r := m[p];
    assert ChildOk(m, p, r, i) && ChildOk(m, p, r, j);
  }

  /** The intervals of two nodes at one height never meet. */
  lemma {:induction false} Disjoint(m: Mem, a: Node?, b: Node?, k: Key)
    requires Inv(m) && a in m && b in m && m[a].height == m[b].height
    requires Holds(m[a], k) && Holds(m[b], k)
    ensures a == b
    decreases m[null].height - m[a].height
  {
    assert NodeOk(m, a) && NodeOk(m, b);
    if a != null && b != null {
      var i := Position(m, a);
      var j := Position(m, b);
      var p, q := m[a].parent, m[b].parent;
      HoldsUp(m, p, i, k);
      HoldsUp(m, q, j, k);
      assert p != null ==> NodeOk(m, p);
      Disjoint(m, p, q, k);
      OneChild(m, p, i, j, k);
    }
  }

  // ------------------------------------------------------------ rebalancing steps

  /** c answers for the same interval, at the same place, in both maps. */
  ghost predicate SameSlot(m: Mem, w: Mem, c: Node?) {
    && c in m && c in w
    && w[c].parent == m[c].parent && w[c].height == m[c].height && w[c].lo == m[c].lo && w[c].hi == m[c].hi
  }

  /** Only the nodes of moved change their slot. */
  ghost predicate Frame(m: Mem, w: Mem, moved: set<Node?>) {
    forall c :: c in m && c !in moved ==> SameSlot(m, w, c)
  }

  /** An inner node keeps its children if none of them moved. */
  lemma KeepsInner(m: Mem, w: Mem, n: Node?, moved: set<Node?>)
    requires n in m && n in w && InnerOk(m, n, m[n])
    requires w[n].keys == m[n].keys && w[n].children == m[n].children
    requires w[n].height == m[n].height && w[n].lo == m[n].lo && w[n].hi == m[n].hi
    requires Frame(m, w, moved) && forall c :: c in moved && c in m ==> m[c].parent != n
    ensures InnerOk(w, n, w[n])
  {
    forall i | 0 <= i < |w[n].children|
      ensures ChildOk(w, n, w[n], i)
    {
      assert ChildOk(m, n, m[n], i);
    }
  }

  lemma Siblings(m: Mem, p: Node?, i: int, j: int)
    requires p in m && InnerOk(m, p, m[p])
    requires 0 <= i < |m[p].children| && 0 <= j < |m[p].children| && i != j
    ensures m[p].children[i] != m[p].children[j]
  {
    var r := m[p];
    assert ChildOk(m, p, r, i) && ChildOk(m, p, r, j);
  }

  lemma InsertSeparator(r: Rec, i: int, k: Key, right: Node)
    requires SeparatorsOk(r) && 0 <= i <= |r.keys|
    requires ChildLo(r, i).At? ==> ChildLo(r, i).key < k
    requires Below(k, ChildHi(r, i))
    ensures SeparatorsOk(r.(keys := InsertAt(r.keys, i, k), children := InsertAt(r.children, i + 1, right)))
  {
    assert Sorted(InsertAt(r.keys, i, k)) by {
      assert i > 0 ==> forall j :: 0 <= j < i ==> r.keys[j] <= r.keys[i - 1];
      assert i < |r.keys| ==> forall j :: i <= j < |r.keys| ==> r.keys[i] <= r.keys[j];
    }
  }

  ghost predicate InSlot(w: Mem, c: Node, p: Node?, height: int, lo: Bound, hi: Bound) {
    c in w && w[c].parent == p && w[c].height == height && w[c].lo == lo && w[c].hi == hi
  }

  /** Child i of p becomes two children meeting at key k. */
  lemma SplitsChild(m: Mem, w: Mem, p: Node?, i: int, k: Key, right: Node, moved: set<Node?>)
    requires p in m && p in w && InnerOk(m, p, m[p]) && 0 <= i < |m[p].children|
    requires w[p] == m[p].(keys := InsertAt(m[p].keys, i, k), children := InsertAt(m[p].children, i + 1, right))
    requires Frame(m, w, moved)
    requires forall c :: c in moved && c in m && m[c].parent == p ==> c == m[p].children[i]
    requires InSlot(w, m[p].children[i], p, m[p].height - 1, ChildLo(m[p], i), At(k))
    requires InSlot(w, right, p, m[p].height - 1, At(k), ChildHi(m[p], i))
    requires ChildLo(m[p], i).At? ==> ChildLo(m[p], i).key < k
    requires Below(k, ChildHi(m[p], i))
    ensures InnerOk(w, p, w[p])
  {
    var r, r' := m[p], w[p];
    InsertSeparator(r, i, k, right);
    forall j | 0 <= j < |r'.children|
      ensures ChildOk(w, p, r', j)
    {
      if j < i {
        Siblings(m, p, i, j);
        assert ChildOk(m, p, r, j);
      } else if j > i + 1 {
        Siblings(m, p, i, j - 1);
        assert ChildOk(m, p, r, j - 1);
      }
    }
  }

  ghost predicate CanCutLeaf(m: Mem, leaf: Node, right: Node, i: int, mid: int) {
    && Inv(m) && leaf in m && m[leaf].isLeaf && right !in m
    && 0 < mid < |m[leaf].keys| && |m[leaf].values| == |m[leaf].keys|
    && m[leaf].parent in m && 0 <= i < |m[m[leaf].parent].children|
    && |m[m[leaf].parent].children| == |m[m[leaf].parent].keys| + 1
    && m[m[leaf].parent].children[i] == leaf
    && (m[leaf].next != null ==> m[leaf].next in m)
  }

  /** splitLeaf, up to and including the parent's new separator and child. */
  ghost function CutLeaf(m: Mem, leaf: Node, right: Node, i: int, mid: int): Mem
    requires CanCutLeaf(m, leaf, right, i, mid)
  {
    var l, k := m[leaf], m[leaf].keys[mid];
    var p := l.parent;
    var w := m[leaf := l.(keys := l.keys[..mid], values := l.values[..mid], next := right, hi := At(k))]
              [right := Rec(l.keys[mid..], true, p, l.next, leaf, [], l.values[mid..], 0, At(k), l.hi)]
              [p := m[p].(keys := InsertAt(m[p].keys, i, k), children := InsertAt(m[p].children, i + 1, right))];
    if l.next == null then w else w[l.next := m[l.next].(prev := right)]
  }

  lemma CutLeafInner(m: Mem, leaf: Node, right: Node, i: int, mid: int, n: Node?)
    requires CanCutLeaf(m, leaf, right, i, mid) && n in m && !m[n].isLeaf
    ensures InnerOk(CutLeaf(m, leaf, right, i, mid), n, CutLeaf(m, leaf, right, i, mid)[n])
  {
    var w, l := CutLeaf(m, leaf, right, i, mid), m[leaf];
    assert NodeOk(m, n) && NodeOk(m, leaf);
    if n == l.parent {
      assert ChildOk(m, n, m[n], i);
      assert l.keys[0] < l.keys[mid];
      SplitsChild(m, w, n, i, l.keys[mid], right, {leaf});
    } else {
      KeepsInner(m, w, n, {leaf});
    }
  }

  lemma CutLeafHalves(l: Rec, mid: int)
    requires LeafOk(l) && 0 < mid < |l.keys|
    ensures Above(l.lo, l.keys[0]) && l.keys[0] < l.keys[mid] && Below(l.keys[mid], l.hi)
    ensures |l.keys[..mid]| == |l.values[..mid]| && Sorted(l.keys[..mid]) && Spans(l.lo, l.keys[..mid], At(l.keys[mid]))
    ensures |l.keys[mid..]| == |l.values[mid..]| && Sorted(l.keys[mid..]) && Spans(At(l.keys[mid]), l.keys[mid..], l.hi)
  {
  }

  /** The leaves that meet at the cut. */
  lemma CutLeafNear(m: Mem, leaf: Node, right: Node, i: int, mid: int, n: Node)
    requires CanCutLeaf(m, leaf, right, i, mid) && (n == leaf || n == right || n == m[leaf].next)
    ensures var w := CutLeaf(m, leaf, right, i, mid); n in w && Chained(w, n, w[n])
  {
    hide InnerOk, LeafOk;
    assert NodeOk(m, leaf);
    if m[leaf].next != null { assert NodeOk(m, m[leaf].next); }
  }

  lemma CutLeafFar(m: Mem, leaf: Node, right: Node, i: int, mid: int, n: Node)
    requires CanCutLeaf(m, leaf, right, i, mid) && n in m && m[n].isLeaf && n != leaf && n != m[leaf].next
    ensures var w := CutLeaf(m, leaf, right, i, mid); n in w && Chained(w, n, w[n])
  {
    hide InnerOk, LeafOk;
    assert NodeOk(m, leaf) && NodeOk(m, n);
  }

  lemma CutLeafChain(m: Mem, leaf: Node, right: Node, i: int, mid: int, n: Node)
    requires CanCutLeaf(m, leaf, right, i, mid) && n in CutLeaf(m, leaf, right, i, mid)
    requires CutLeaf(m, leaf, right, i, mid)[n].isLeaf
    ensures var w := CutLeaf(m, leaf, right, i, mid); Chained(w, n, w[n])
  {
    hide Inv, Chained;
    if n == leaf || n == right || n == m[leaf].next {
      CutLeafNear(m, leaf, right, i, mid, n);
    } else {
      CutLeafFar(m, leaf, right, i, mid, n);
    }
  }

  lemma InsertKeeps<T>(s: seq<T>, i: int, x: T)
    requires 0 <= i <= |s|
    ensures x in InsertAt(s, i, x) && forall c :: c in s ==> c in InsertAt(s, i, x)
  {
    var t := InsertAt(s, i, x);
    assert t[i] == x;
    forall j | 0 <= j < |s| ensures s[j] in t {
      assert t[if j < i then j else j + 1] == s[j];
    }
  }

  lemma CutLeafHangs(m: Mem, leaf: Node, right: Node, i: int, mid: int, n: Node)
    requires CanCutLeaf(m, leaf, right, i, mid) && n in CutLeaf(m, leaf, right, i, mid)
    ensures var w := CutLeaf(m, leaf, right, i, mid); Hangs(w, n, w[n])
  {
    var p := m[leaf].parent;
    InsertKeeps(m[p].children, i + 1, right);
    assert NodeOk(m, leaf);
    if n in m { assert NodeOk(m, n); }
  }

  lemma CutLeafInv(m: Mem, leaf: Node, right: Node, i: int, mid: int)
    requires CanCutLeaf(m, leaf, right, i, mid)
    ensures Inv(CutLeaf(m, leaf, right, i, mid))
  {
    var w, l := CutLeaf(m, leaf, right, i, mid), m[leaf];
    assert NodeOk(m, leaf);
    CutLeafHalves(l, mid);
    forall n | n in w
      ensures NodeOk(w, n)
    {
      if n in m { assert NodeOk(m, n); }
      if w[n].isLeaf {
        CutLeafChain(m, leaf, right, i, mid, n);
      } else {
        CutLeafInner(m, leaf, right, i, mid, n);
      }
      if n != null {
        CutLeafHangs(m, leaf, right, i, mid, n);
      }
    }
  }

  // A leaf's own list of entries changes within its interval.

  ghost predicate CanSetLeaf(m: Mem, leaf: Node, ks: seq<Key>, vs: seq<string>) {
    Inv(m) && leaf in m && m[leaf].isLeaf && |ks| == |vs| && Sorted(ks) && Spans(m[leaf].lo, ks, m[leaf].hi)
  }

  ghost function SetLeaf(m: Mem, leaf: Node, ks: seq<Key>, vs: seq<string>): Mem
    requires CanSetLeaf(m, leaf, ks, vs)
  {
    m[leaf := m[leaf].(keys := ks, values := vs)]
  }

  lemma SetLeafInv(m: Mem, leaf: Node, ks: seq<Key>, vs: seq<string>)
    requires CanSetLeaf(m, leaf, ks, vs)
    ensures Inv(SetLeaf(m, leaf, ks, vs))
  {
    var w := SetLeaf(m, leaf, ks, vs);
    forall n | n in w
      ensures NodeOk(w, n)
    {
      assert NodeOk(m, n);
      if !m[n].isLeaf { KeepsInner(m, w, n, {}); }
    }
  }

  // Two adjacent leaves share out their entries anew, meeting at entry j.

  ghost predicate Adjacent(m: Mem, p: Node?, i: int, left: Node, right: Node) {
    && Inv(m) && p in m && !m[p].isLeaf && left in m && right in m
    && |m[p].children| == |m[p].keys| + 1
    && 0 <= i < |m[p].keys| && m[p].children[i] == left && m[p].children[i + 1] == right
  }

  /** What adjacency means for the two records. */
  lemma AdjacentSlots(m: Mem, p: Node?, i: int, left: Node, right: Node)
    requires Adjacent(m, p, i, left, right)
    ensures left != right && left != p && right != p
    ensures NodeOk(m, p) && NodeOk(m, left) && NodeOk(m, right)
    ensures InSlot(m, left, p, m[p].height - 1, ChildLo(m[p], i), At(m[p].keys[i]))
    ensures InSlot(m, right, p, m[p].height - 1, At(m[p].keys[i]), ChildHi(m[p], i + 1))
    ensures m[left].isLeaf == m[right].isLeaf
  {
    assert NodeOk(m, p) && NodeOk(m, left) && NodeOk(m, right);
    assert ChildOk(m, p, m[p], i) && ChildOk(m, p, m[p], i + 1);
    Siblings(m, p, i, i + 1);
  }

  /** Separator i of p moves; only the two children beside it are affected. */
  lemma MovesSeparator(m: Mem, w: Mem, p: Node?, i: int, k: Key, moved: set<Node?>)
    requires p in m && p in w && InnerOk(m, p, m[p]) && 0 <= i < |m[p].keys|
    requires w[p] == m[p].(keys := m[p].keys[i := k])
    requires Frame(m, w, moved)
    requires forall c :: c in moved && c in m && m[c].parent == p ==> c == m[p].children[i] || c == m[p].children[i + 1]
    requires InSlot(w, m[p].children[i], p, m[p].height - 1, ChildLo(m[p], i), At(k))
    requires InSlot(w, m[p].children[i + 1], p, m[p].height - 1, At(k), ChildHi(m[p], i + 1))
    requires ChildLo(m[p], i).At? ==> ChildLo(m[p], i).key < k
    requires Below(k, ChildHi(m[p], i + 1))
    ensures InnerOk(w, p, w[p])
  {
    var r, r' := m[p], w[p];
    assert SeparatorsOk(r') by { MovedSorted(r.keys, i, k); }
    forall j | 0 <= j < |r'.children|
      ensures ChildOk(w, p, r', j)
    {
      assert ChildOk(m, p, r, j);
      if j != i && j != i + 1 {
        Siblings(m, p, i, j);
        Siblings(m, p, i + 1, j);
      }
    }
  }

  lemma MovedSorted(ks: seq<Key>, i: int, k: Key)
    requires Sorted(ks) && 0 <= i < |ks|
    requires i > 0 ==> ks[i - 1] < k
    requires i + 1 < |ks| ==> k < ks[i + 1]
    ensures Sorted(ks[i := k])
  {
  }

  ghost predicate CanShiftLeaves(m: Mem, p: Node?, i: int, left: Node, right: Node, j: int) {
    && Adjacent(m, p, i, left, right) && m[left].isLeaf
    && |m[left].keys| == |m[left].values| && |m[right].keys| == |m[right].values|
    && 0 < j < |m[left].keys| + |m[right].keys|
  }

  ghost function ShiftLeaves(m: Mem, p: Node?, i: int, left: Node, right: Node, j: int): Mem
    requires CanShiftLeaves(m, p, i, left, right, j)
  {
    var ks, vs := m[left].keys + m[right].keys, m[left].values + m[right].values;
    m[left := m[left].(keys := ks[..j], values := vs[..j], hi := At(ks[j]))]
     [right := m[right].(keys := ks[j..], values := vs[j..], lo := At(ks[j]))]
     [p := m[p].(keys := m[p].keys[i := ks[j]])]
  }

  /** The entries of two adjacent leaves form one sorted run. */
  lemma JoinedRun(l: Rec, r: Rec)
    requires LeafOk(l) && LeafOk(r) && l.hi.At? && r.lo == l.hi
    requires l.lo.At? ==> l.lo.key < l.hi.key
    requires r.hi.At? ==> r.lo.key < r.hi.key
    ensures Sorted(l.keys + r.keys) && Spans(l.lo, l.keys + r.keys, r.hi)
    ensures |l.keys + r.keys| == |l.values + r.values|
  {
  }

  lemma ShiftLeavesInner(m: Mem, p: Node?, i: int, left: Node, right: Node, j: int, n: Node?)
    requires CanShiftLeaves(m, p, i, left, right, j) && n in m && !m[n].isLeaf
    ensures var w := ShiftLeaves(m, p, i, left, right, j); InnerOk(w, n, w[n])
  {
    var w := ShiftLeaves(m, p, i, left, right, j);
    AdjacentSlots(m, p, i, left, right);
    assert NodeOk(m, n);
    if n == p {
      var ks := m[left].keys + m[right].keys;
      JoinedRun(m[left], m[right]);
      assert ks[0] < ks[j];
      MovesSeparator(m, w, p, i, ks[j], {left, right});
    } else {
      KeepsInner(m, w, n, {left, right});
    }
  }

  /** Adjacent leaves follow each other in the chain. */
  lemma AdjacentChain(m: Mem, p: Node?, i: int, left: Node, right: Node)
    requires Adjacent(m, p, i, left, right) && m[left].isLeaf
    ensures m[left].next == right && m[right].prev == left
  {
    AdjacentSlots(m, p, i, left, right);
    var x := m[left].next;
    assert NodeOk(m, x);
    Disjoint(m, x, right, m[p].keys[i]);
  }

  lemma ShiftLeavesChain(m: Mem, p: Node?, i: int, left: Node, right: Node, j: int, n: Node)
    requires CanShiftLeaves(m, p, i, left, right, j) && n in m && m[n].isLeaf
    ensures var w := ShiftLeaves(m, p, i, left, right, j); Chained(w, n, w[n])
  {
    AdjacentSlots(m, p, i, left, right);
    AdjacentChain(m, p, i, left, right);
    assert NodeOk(m, n);
  }

  lemma ShiftLeavesInv(m: Mem, p: Node?, i: int, left: Node, right: Node, j: int)
    requires CanShiftLeaves(m, p, i, left, right, j)
    ensures Inv(ShiftLeaves(m, p, i, left, right, j))
  {
    hide InnerOk, Chained;
    var w := ShiftLeaves(m, p, i, left, right, j);
    AdjacentSlots(m, p, i, left, right);
    JoinedRun(m[left], m[right]);
    var run := m[left].(keys := m[left].keys + m[right].keys, values := m[left].values + m[right].values, hi := m[right].hi);
    CutLeafHalves(run, j);
    forall n | n in w
      ensures NodeOk(w, n)
    {
      assert NodeOk(m, n);
      if w[n].isLeaf {
        ShiftLeavesChain(m, p, i, left, right, j, n);
      } else {
        ShiftLeavesInner(m, p, i, left, right, j, n);
      }
    }
  }

  // Two adjacent leaves become one.

  ghost predicate CanMergeLeaves(m: Mem, p: Node?, i: int, left: Node, right: Node) {
    && Adjacent(m, p, i, left, right) && m[left].isLeaf
    && |m[left].keys| == |m[left].values| && |m[right].keys| == |m[right].values|
    && (m[right].next != null ==> m[right].next in m)
  }

  ghost function MergeLeaves(m: Mem, p: Node?, i: int, left: Node, right: Node): Mem
    requires CanMergeLeaves(m, p, i, left, right)
  {
    var l, r := m[left], m[right];
    var w := m[left := l.(keys := l.keys + r.keys, values := l.values + r.values, next := r.next, hi := r.hi)]
              [p := m[p].(keys := RemoveAt(m[p].keys, i), children := RemoveAt(m[p].children, i + 1))];
    (if r.next == null then w else w[r.next := m[r.next].(prev := left)]) - {right}
  }

  lemma DropSeparator(r: Rec, i: int)
    requires SeparatorsOk(r) && 0 <= i < |r.keys|
    ensures SeparatorsOk(r.(keys := RemoveAt(r.keys, i), children := RemoveAt(r.children, i + 1)))
  {
  }

  /** Children i and i+1 of p become one child. */
  lemma MergesChildren(m: Mem, w: Mem, p: Node?, i: int, moved: set<Node?>)
    requires p in m && p in w && InnerOk(m, p, m[p]) && 0 <= i < |m[p].keys|
    requires w[p] == m[p].(keys := RemoveAt(m[p].keys, i), children := RemoveAt(m[p].children, i + 1))
    requires Frame(m, w, moved)
    requires forall c :: c in moved && c in m && m[c].parent == p ==> c == m[p].children[i] || c == m[p].children[i + 1]
    requires InSlot(w, m[p].children[i], p, m[p].height - 1, ChildLo(m[p], i), ChildHi(m[p], i + 1))
    ensures InnerOk(w, p, w[p])
  {
    var r, r' := m[p], w[p];
    DropSeparator(r, i);
    forall j | 0 <= j < |r'.children|
      ensures ChildOk(w, p, r', j)
    {
      if j < i {
        assert ChildOk(m, p, r, j);
        Siblings(m, p, i, j);
        Siblings(m, p, i + 1, j);
      } else if j > i {
        assert ChildOk(m, p, r, j + 1);
        Siblings(m, p, i, j + 1);
        Siblings(m, p, i + 1, j + 1);
      }
    }
  }

  lemma MergeLeavesFrame(m: Mem, p: Node?, i: int, left: Node, right: Node)
    requires CanMergeLeaves(m, p, i, left, right)
    ensures var w := MergeLeaves(m, p, i, left, right);
      && w.Keys == m.Keys - {right} && p in w && left in w && Frame(m, w, {left, right})
      && w[p] == m[p].(keys := RemoveAt(m[p].keys, i), children := RemoveAt(m[p].children, i + 1))
      && w[left].parent == m[left].parent && w[left].height == m[left].height && w[left].lo == m[left].lo && w[left].hi == m[right].hi
      && (forall c :: c in m && !m[c].isLeaf && c != p ==> c in w && w[c] == m[c])
  {
    hide InnerOk, LeafOk, Hangs;
    AdjacentSlots(m, p, i, left, right);
    assert NodeOk(m, right);
  }

  lemma MergeLeavesInner(m: Mem, p: Node?, i: int, left: Node, right: Node, n: Node?)
    requires CanMergeLeaves(m, p, i, left, right) && n in m && !m[n].isLeaf
    ensures var w := MergeLeaves(m, p, i, left, right); n in w && InnerOk(w, n, w[n])
  {
    hide LeafOk, Hangs, Chained, MergeLeaves;
    var w := MergeLeaves(m, p, i, left, right);
    AdjacentSlots(m, p, i, left, right);
    MergeLeavesFrame(m, p, i, left, right);
    assert NodeOk(m, n);
    if n == p {
      MergesChildren(m, w, p, i, {left, right});
    } else {
      KeepsInner(m, w, n, {left, right});
    }
  }

  lemma MergeLeavesChain(m: Mem, p: Node?, i: int, left: Node, right: Node, n: Node)
    requires CanMergeLeaves(m, p, i, left, right) && n in m && m[n].isLeaf && n != right
    ensures var w := MergeLeaves(m, p, i, left, right); n in w && Chained(w, n, w[n])
  {
    hide InnerOk, LeafOk, Hangs;
    AdjacentSlots(m, p, i, left, right);
    AdjacentChain(m, p, i, left, right);
    assert NodeOk(m, n);
    if m[right].next != null { assert NodeOk(m, m[right].next); }
  }

  lemma RemoveKeeps<T>(s: seq<T>, i: int)
    requires 0 <= i < |s|
    ensures forall c :: c in s && c != s[i] ==> c in RemoveAt(s, i)
  {
    var t := RemoveAt(s, i);
    forall j | 0 <= j < |s| && j != i ensures s[j] in t {
      assert t[if j < i then j else j - 1] == s[j];
    }
  }

  lemma MergeLeavesHangs(m: Mem, p: Node?, i: int, left: Node, right: Node, n: Node)
    requires CanMergeLeaves(m, p, i, left, right) && n in m && n != right
    ensures var w := MergeLeaves(m, p, i, left, right); n in w && null in w && Hangs(w, n, w[n])
  {
    hide InnerOk, Chained, LeafOk;
    AdjacentSlots(m, p, i, left, right);
    RemoveKeeps(m[p].children, i + 1);
    assert NodeOk(m, n);
  }

  lemma MergeLeavesInv(m: Mem, p: Node?, i: int, left: Node, right: Node)
    requires CanMergeLeaves(m, p, i, left, right)
    ensures Inv(MergeLeaves(m, p, i, left, right))
  {
    hide InnerOk, Chained, Hangs;
    var w := MergeLeaves(m, p, i, left, right);
    AdjacentSlots(m, p, i, left, right);
    JoinedRun(m[left], m[right]);
    forall n | n in w
      ensures NodeOk(w, n)
    {
      assert NodeOk(m, n);
      if w[n].isLeaf {
        MergeLeavesChain(m, p, i, left, right, n);
      } else {
        MergeLeavesInner(m, p, i, left, right, n);
      }
      if n != null {
        MergeLeavesHangs(m, p, i, left, right, n);
      }
    }
  }

  // Inner nodes: a record is cut at a separator, or two records are joined around one.

  ghost function Lower(r: Rec, j: int): Rec
    requires SeparatorsOk(r) && 0 <= j < |r.keys|
  {
    r.(keys := r.keys[..j], children := r.children[..j + 1], hi := At(r.keys[j]))
  }

  ghost function Upper(r: Rec, j: int): Rec
    requires SeparatorsOk(r) && 0 <= j < |r.keys|
  {
    r.(keys := r.keys[j + 1..], children := r.children[j + 1..], lo := At(r.keys[j]))
  }

  ghost function Joined(l: Rec, k: Key, r: Rec): Rec {
    l.(keys := l.keys + [k] + r.keys, children := l.children + r.children, hi := r.hi)
  }

  /** Every child of r has the interval r's separators assign to it. */
  ghost predicate Fits(m: Mem, r: Rec)
    requires |r.children| == |r.keys| + 1
  {
    forall i {:trigger r.children[i]} :: 0 <= i < |r.children| ==>
      && r.children[i] in m
      && m[r.children[i]].height == r.height - 1
      && m[r.children[i]].lo == ChildLo(r, i)
      && m[r.children[i]].hi == ChildHi(r, i)
  }

  lemma InnerFits(m: Mem, n: Node?)
    requires n in m && InnerOk(m, n, m[n])
    ensures Fits(m, m[n])
  {
    forall i | 0 <= i < |m[n].children|
      ensures
        && m[n].children[i] in m
        && m[m[n].children[i]].height == m[n].height - 1
        && m[m[n].children[i]].lo == ChildLo(m[n], i)
        && m[m[n].children[i]].hi == ChildHi(m[n], i)
    {
      assert ChildOk(m, n, m[n], i);
    }
  }

  lemma FitsDistinct(m: Mem, r: Rec, i: int, j: int)
    requires SeparatorsOk(r) && Fits(m, r) && 0 <= i < j < |r.children|
    ensures r.children[i] != r.children[j]
  {
    assert m[r.children[j]].lo == At(r.keys[j - 1]);
  }

  lemma FitsInner(m: Mem, w: Mem, n: Node?, r: Rec)
    requires SeparatorsOk(r) && Fits(m, r)
    requires forall c :: c in r.children && c in m ==> c in w && w[c] == m[c].(parent := n)
    ensures InnerOk(w, n, r)
  {
  }

  lemma CutFits(m: Mem, r: Rec, j: int)
    requires SeparatorsOk(r) && Fits(m, r) && 0 <= j < |r.keys|
    ensures SeparatorsOk(Lower(r, j)) && SeparatorsOk(Upper(r, j))
    ensures Fits(m, Lower(r, j)) && Fits(m, Upper(r, j))
  {
    var l, u := Lower(r, j), Upper(r, j);
    forall i | 0 <= i < |u.children|
      ensures ChildLo(u, i) == ChildLo(r, i + j + 1) && ChildHi(u, i) == ChildHi(r, i + j + 1)
    {
    }
  }

  lemma JoinSeparators(l: Rec, k: Key, r: Rec)
    requires SeparatorsOk(l) && SeparatorsOk(r) && l.hi == At(k) && r.lo == At(k) && l.height == r.height
    requires l.lo.At? ==> l.lo.key < k
    requires r.hi.At? ==> k < r.hi.key
    ensures SeparatorsOk(Joined(l, k, r))
  {
    hide Sorted, Spans;
    JoinSpans(l, k, r);
    JoinSorted(l.keys, k, r.keys);
  }

  lemma JoinSorted(a: seq<Key>, k: Key, b: seq<Key>)
    requires Sorted(a) && Sorted(b) && (forall i :: 0 <= i < |a| ==> a[i] < k) && (forall i :: 0 <= i < |b| ==> k < b[i])
    ensures Sorted(a + [k] + b)
  {
  }

  lemma JoinSpans(l: Rec, k: Key, r: Rec)
    requires SeparatorsOk(l) && SeparatorsOk(r) && l.hi == At(k) && r.lo == At(k)
    requires (l.lo.At? ==> l.lo.key < k) && (r.hi.At? ==> k < r.hi.key)
    ensures Spans(l.lo, l.keys + [k] + r.keys, r.hi)
    ensures (forall i :: 0 <= i < |l.keys| ==> l.keys[i] < k) && (forall i :: 0 <= i < |r.keys| ==> k < r.keys[i])
  {
  }

  lemma JoinFits(m: Mem, l: Rec, k: Key, r: Rec)
    requires SeparatorsOk(l) && SeparatorsOk(r) && Fits(m, l) && Fits(m, r)
    requires l.hi == At(k) && r.lo == At(k) && l.height == r.height
    ensures Fits(m, Joined(l, k, r))
  {
    var q, n := Joined(l, k, r), |l.children|;
    forall i | 0 <= i < |q.children|
      ensures
        && q.children[i] in m
        && m[q.children[i]].height == q.height - 1
        && m[q.children[i]].lo == ChildLo(q, i)
        && m[q.children[i]].hi == ChildHi(q, i)
    {
      assert q.children[i] == if i < n then l.children[i] else r.children[i - n];
    }
  }

  ghost function Reparent(m: Mem, cs: seq<Node>, q: Node?): Mem {
    map c | c in m :: if c in cs then m[c].(parent := q) else m[c]
  }

  /** Children of n know n, and only they. */
  lemma Kids(m: Mem, n: Node?)
    requires Inv(m) && n in m && InnerOk(m, n, m[n])
    ensures forall c :: c in m[n].children ==> c in m && m[c].parent == n && m[c].height == m[n].height - 1
    ensures forall c: Node :: c in m && m[c].parent == n ==> c in m[n].children
  {
    forall c | c in m[n].children
      ensures c in m && m[c].parent == n && m[c].height == m[n].height - 1
    {
      var i :| 0 <= i < |m[n].children| && m[n].children[i] == c;
      assert ChildOk(m, n, m[n], i);
    }
    forall c: Node | c in m && m[c].parent == n
      ensures c in m[n].children
    {
      assert NodeOk(m, c);
    }
  }

  /** A leaf's links survive a step that changes leaves in their parent link only. */
  lemma KeepsLeaf(m: Mem, w: Mem, n: Node)
    requires n in m && m[n].isLeaf && LeafOk(m[n]) && Chained(m, n, m[n])
    requires forall c :: c in m && m[c].isLeaf ==> c in w && w[c] == m[c].(parent := w[c].parent)
    ensures LeafOk(w[n]) && Chained(w, n, w[n])
  {
  }

  // An inner node is cut in two.

  ghost predicate CanCutInner(m: Mem, n: Node, right: Node, i: int, mid: int) {
    && Inv(m) && n in m && !m[n].isLeaf && SeparatorsOk(m[n]) && right !in m
    && 0 < mid < |m[n].keys|
    && m[n].parent in m && 0 <= i < |m[m[n].parent].children|
    && |m[m[n].parent].children| == |m[m[n].parent].keys| + 1
    && m[m[n].parent].children[i] == n
  }

  ghost function CutInner(m: Mem, n: Node, right: Node, i: int, mid: int): Mem
    requires CanCutInner(m, n, right, i, mid)
  {
    var r := m[n];
    var p, k := r.parent, r.keys[mid];
    Reparent(m, Upper(r, mid).children, right)
      [n := Lower(r, mid)]
      [right := Upper(r, mid)]
      [p := m[p].(keys := InsertAt(m[p].keys, i, k), children := InsertAt(m[p].children, i + 1, right))]
  }

  /** The records after the cut, one by one. */
  lemma CutInnerRecs(m: Mem, n: Node, right: Node, i: int, mid: int)
    requires CanCutInner(m, n, right, i, mid)
    ensures var w, r, p := CutInner(m, n, right, i, mid), m[n], m[n].parent;
      && p != n && p in m && NodeOk(m, p) && InnerOk(m, n, r) && !m[p].isLeaf
      && n !in r.children && p !in r.children
      && w[n] == Lower(r, mid) && w[right] == Upper(r, mid)
      && (forall c :: c in m && c != n && c != p ==>
            w[c] == if c in r.children[mid + 1..] then m[c].(parent := right) else m[c])
  {
    var p := m[n].parent;
    assert NodeOk(m, n) && NodeOk(m, p);
    assert ChildOk(m, p, m[p], i);
    Kids(m, n);
  }

  lemma CutInnerPieces(m: Mem, n: Node, right: Node, i: int, mid: int)
    requires CanCutInner(m, n, right, i, mid)
    ensures var w := CutInner(m, n, right, i, mid); InnerOk(w, n, w[n]) && InnerOk(w, right, w[right])
  {
    var w, r := CutInner(m, n, right, i, mid), m[n];
    CutInnerRecs(m, n, right, i, mid);
    Kids(m, n);
    InnerFits(m, n);
    CutFits(m, r, mid);
    forall c | c in Lower(r, mid).children
      ensures c !in Upper(r, mid).children
    {
      LowerNotUpper(m, r, mid, c);
    }
    FitsInner(m, w, n, Lower(r, mid));
    FitsInner(m, w, right, Upper(r, mid));
  }

  lemma LowerNotUpper(m: Mem, r: Rec, mid: int, c: Node)
    requires SeparatorsOk(r) && Fits(m, r) && 0 <= mid < |r.keys| && c in Lower(r, mid).children
    ensures c !in Upper(r, mid).children
  {
    if c in Upper(r, mid).children {
      var i :| 0 <= i <= mid && r.children[i] == c;
      var j :| mid < j < |r.children| && r.children[j] == c;
      FitsDistinct(m, r, i, j);
    }
  }

  lemma CutInnerParent(m: Mem, n: Node, right: Node, i: int, mid: int)
    requires CanCutInner(m, n, right, i, mid)
    ensures var w, p := CutInner(m, n, right, i, mid), m[n].parent; InnerOk(w, p, w[p])
  {
    var w, r, p := CutInner(m, n, right, i, mid), m[n], m[n].parent;
    CutInnerRecs(m, n, right, i, mid);
    Kids(m, n);
    assert ChildOk(m, p, m[p], i);
    assert r.keys[0] < r.keys[mid];
    SplitsChild(m, w, p, i, r.keys[mid], right, set c | c in m && (c == n || m[c].parent == n));
  }

  lemma CutInnerOther(m: Mem, n: Node, right: Node, i: int, mid: int, q: Node?)
    requires CanCutInner(m, n, right, i, mid) && q in m && !m[q].isLeaf && q != n && q != m[n].parent
    ensures var w := CutInner(m, n, right, i, mid); InnerOk(w, q, w[q])
  {
    var w := CutInner(m, n, right, i, mid);
    CutInnerRecs(m, n, right, i, mid);
    Kids(m, n);
    assert NodeOk(m, q);
    KeepsInner(m, w, q, set c | c in m && (c == n || m[c].parent == n));
  }

  lemma CutInnerHangs(m: Mem, n: Node, right: Node, i: int, mid: int, c: Node)
    requires CanCutInner(m, n, right, i, mid) && c in CutInner(m, n, right, i, mid)
    ensures var w := CutInner(m, n, right, i, mid); Hangs(w, c, w[c])
  {
    var r, p := m[n], m[n].parent;
    CutInnerRecs(m, n, right, i, mid);
    InsertKeeps(m[p].children, i + 1, right);
    assert NodeOk(m, n);
    if c in m { assert NodeOk(m, c); }
    assert r.children == r.children[..mid + 1] + r.children[mid + 1..];
  }

  lemma CutInnerInv(m: Mem, n: Node, right: Node, i: int, mid: int)
    requires CanCutInner(m, n, right, i, mid)
    ensures Inv(CutInner(m, n, right, i, mid))
  {
    hide Chained, LeafOk, Hangs;
    var w := CutInner(m, n, right, i, mid);
    CutInnerRecs(m, n, right, i, mid);
    CutInnerPieces(m, n, right, i, mid);
    assert NodeOk(m, n);
    assert m[n].keys[0] < m[n].keys[mid];
    forall c | c in w
      ensures NodeOk(w, c)
    {
      if c in m { assert NodeOk(m, c); }
      if c != n && c != right {
        if m[c].isLeaf { KeepsLeaf(m, w, c); } else {
          if c == m[n].parent { CutInnerParent(m, n, right, i, mid); } else { CutInnerOther(m, n, right, i, mid, c); }
        }
      }
      if c != null { CutInnerHangs(m, n, right, i, mid, c); }
    }
  }

  // Two adjacent inner nodes share out their children anew around separator j.

  ghost predicate CanShiftInner(m: Mem, p: Node?, i: int, left: Node, right: Node, j: int) {
    && Adjacent(m, p, i, left, right) && !m[left].isLeaf
    && SeparatorsOk(Joined(m[left], m[p].keys[i], m[right]))
    && 0 < j < |m[left].keys| + |m[right].keys|
  }

  ghost function ShiftInner(m: Mem, p: Node?, i: int, left: Node, right: Node, j: int): Mem
    requires CanShiftInner(m, p, i, left, right, j)
  {
    var q := Joined(m[left], m[p].keys[i], m[right]);
    Reparent(Reparent(m, Lower(q, j).children, left), Upper(q, j).children, right)
      [left := Lower(q, j)]
      [right := Upper(q, j)]
      [p := m[p].(keys := m[p].keys[i := q.keys[j]])]
  }

  /** Two adjacent inner nodes read as one, and who their children are. */
  lemma AdjacentJoin(m: Mem, p: Node?, i: int, left: Node, right: Node)
    requires Adjacent(m, p, i, left, right) && !m[left].isLeaf
    ensures var q := Joined(m[left], m[p].keys[i], m[right]);
      SeparatorsOk(q) && Fits(m, q) && q.parent == p && q.lo == ChildLo(m[p], i) && q.hi == ChildHi(m[p], i + 1)
    ensures forall c :: c in m[left].children + m[right].children ==>
              c in m && (m[c].parent == left || m[c].parent == right) && m[c].height < m[left].height
    ensures forall c: Node :: c in m && (m[c].parent == left || m[c].parent == right) ==>
              c in m[left].children + m[right].children
    ensures left !in m[left].children + m[right].children && right !in m[left].children + m[right].children
    ensures p !in m[left].children + m[right].children
  {
    AdjacentSlots(m, p, i, left, right);
    InnerFits(m, left);
    InnerFits(m, right);
    JoinSeparators(m[left], m[p].keys[i], m[right]);
    JoinFits(m, m[left], m[p].keys[i], m[right]);
    Kids(m, left);
    Kids(m, right);
  }

  lemma ShiftInnerRecs(m: Mem, p: Node?, i: int, left: Node, right: Node, j: int)
    requires CanShiftInner(m, p, i, left, right, j)
    ensures var w, q := ShiftInner(m, p, i, left, right, j), Joined(m[left], m[p].keys[i], m[right]);
      && w.Keys == m.Keys && w[left] == Lower(q, j) && w[right] == Upper(q, j)
      && w[p] == m[p].(keys := m[p].keys[i := q.keys[j]])
      && (forall c :: c in q.children ==>
            c in m && w[c] == m[c].(parent := if c in Upper(q, j).children then right else left))
      && (forall c :: c in m && c !in q.children && c !in {left, right, p} ==> w[c] == m[c])
  {
    AdjacentSlots(m, p, i, left, right);
    AdjacentJoin(m, p, i, left, right);
    var q := Joined(m[left], m[p].keys[i], m[right]);
    assert q.children == Lower(q, j).children + Upper(q, j).children;
  }

  lemma ShiftInnerPieces(m: Mem, p: Node?, i: int, left: Node, right: Node, j: int)
    requires CanShiftInner(m, p, i, left, right, j)
    ensures var w := ShiftInner(m, p, i, left, right, j); InnerOk(w, left, w[left]) && InnerOk(w, right, w[right])
  {
    var w, q := ShiftInner(m, p, i, left, right, j), Joined(m[left], m[p].keys[i], m[right]);
    ShiftInnerRecs(m, p, i, left, right, j);
    AdjacentJoin(m, p, i, left, right);
    CutFits(m, q, j);
    forall c | c in Lower(q, j).children
      ensures c in q.children && c !in Upper(q, j).children
    {
      LowerNotUpper(m, q, j, c);
    }
    FitsInner(m, w, left, Lower(q, j));
    FitsInner(m, w, right, Upper(q, j));
  }

  ghost function ChildrenOf(m: Mem, left: Node, right: Node): set<Node?> {
    set c | c in m && (c == left || c == right || m[c].parent == left || m[c].parent == right)
  }

  lemma ShiftInnerParent(m: Mem, p: Node?, i: int, left: Node, right: Node, j: int)
    requires CanShiftInner(m, p, i, left, right, j)
    ensures var w := ShiftInner(m, p, i, left, right, j); InnerOk(w, p, w[p])
  {
    var w, q := ShiftInner(m, p, i, left, right, j), Joined(m[left], m[p].keys[i], m[right]);
    ShiftInnerRecs(m, p, i, left, right, j);
    AdjacentSlots(m, p, i, left, right);
    AdjacentJoin(m, p, i, left, right);
    assert q.keys[0] < q.keys[j];
    MovesSeparator(m, w, p, i, q.keys[j], ChildrenOf(m, left, right));
  }

  lemma ShiftInnerOther(m: Mem, p: Node?, i: int, left: Node, right: Node, j: int, n: Node?)
    requires CanShiftInner(m, p, i, left, right, j) && n in m && !m[n].isLeaf && n !in {left, right, p}
    ensures var w := ShiftInner(m, p, i, left, right, j); InnerOk(w, n, w[n])
  {
    var w := ShiftInner(m, p, i, left, right, j);
    ShiftInnerRecs(m, p, i, left, right, j);
    AdjacentSlots(m, p, i, left, right);
    AdjacentJoin(m, p, i, left, right);
    assert NodeOk(m, n);
    KeepsInner(m, w, n, ChildrenOf(m, left, right));
  }

  lemma ShiftInnerHangs(m: Mem, p: Node?, i: int, left: Node, right: Node, j: int, c: Node)
    requires CanShiftInner(m, p, i, left, right, j) && c in m
    ensures var w := ShiftInner(m, p, i, left, right, j); c in w && null in w && Hangs(w, c, w[c])
  {
    var q := Joined(m[left], m[p].keys[i], m[right]);
    ShiftInnerRecs(m, p, i, left, right, j);
    AdjacentSlots(m, p, i, left, right);
    AdjacentJoin(m, p, i, left, right);
    assert NodeOk(m, c);
    assert q.children == Lower(q, j).children + Upper(q, j).children;
  }

  lemma ShiftInnerInv(m: Mem, p: Node?, i: int, left: Node, right: Node, j: int)
    requires CanShiftInner(m, p, i, left, right, j)
    ensures Inv(ShiftInner(m, p, i, left, right, j))
  {
    hide Chained, LeafOk, Hangs;
    var w, q := ShiftInner(m, p, i, left, right, j), Joined(m[left], m[p].keys[i], m[right]);
    ShiftInnerRecs(m, p, i, left, right, j);
    ShiftInnerPieces(m, p, i, left, right, j);
    AdjacentSlots(m, p, i, left, right);
    assert q.keys[0] < q.keys[j] < q.keys[|q.keys| - 1];
    forall c | c in w
      ensures NodeOk(w, c)
    {
      assert NodeOk(m, c);
      if c != left && c != right {
        if m[c].isLeaf { KeepsLeaf(m, w, c); } else {
          if c == p { ShiftInnerParent(m, p, i, left, right, j); } else { ShiftInnerOther(m, p, i, left, right, j, c); }
        }
      }
      if c != null { ShiftInnerHangs(m, p, i, left, right, j, c); }
    }
  }

  // Two adjacent inner nodes become one.

  ghost predicate CanMergeInner(m: Mem, p: Node?, i: int, left: Node, right: Node) {
    Adjacent(m, p, i, left, right) && !m[left].isLeaf
  }

  ghost function MergeInner(m: Mem, p: Node?, i: int, left: Node, right: Node): Mem
    requires CanMergeInner(m, p, i, left, right)
  {
    Reparent(m, m[right].children, left)
      [left := Joined(m[left], m[p].keys[i], m[right])]
      [p := m[p].(keys := RemoveAt(m[p].keys, i), children := RemoveAt(m[p].children, i + 1))]
      - {right}
  }

  lemma MergeInnerRecs(m: Mem, p: Node?, i: int, left: Node, right: Node)
    requires CanMergeInner(m, p, i, left, right)
    ensures var w, q := MergeInner(m, p, i, left, right), Joined(m[left], m[p].keys[i], m[right]);
      && left != right && right != p && w.Keys == m.Keys - {right} && w[left] == q
      && w[p] == m[p].(keys := RemoveAt(m[p].keys, i), children := RemoveAt(m[p].children, i + 1))
      && (forall c :: c in q.children ==> c in m && c != right && w[c] == m[c].(parent := left))
      && (forall c :: c in m && c !in q.children && c !in {left, right, p} ==> w[c] == m[c])
  {
    AdjacentSlots(m, p, i, left, right);
    AdjacentJoin(m, p, i, left, right);
    Kids(m, left);
    Kids(m, right);
  }

  lemma MergeInnerSides(m: Mem, p: Node?, i: int, left: Node, right: Node)
    requires CanMergeInner(m, p, i, left, right)
    ensures var w := MergeInner(m, p, i, left, right); p in w && left in w && InnerOk(w, p, w[p]) && InnerOk(w, left, w[left])
  {
    var w, q := MergeInner(m, p, i, left, right), Joined(m[left], m[p].keys[i], m[right]);
    MergeInnerRecs(m, p, i, left, right);
    AdjacentSlots(m, p, i, left, right);
    AdjacentJoin(m, p, i, left, right);
    FitsInner(m, w, left, q);
    MergesChildren(m, w, p, i, ChildrenOf(m, left, right));
  }

  lemma MergeInnerOther(m: Mem, p: Node?, i: int, left: Node, right: Node, n: Node?)
    requires CanMergeInner(m, p, i, left, right) && n in m && !m[n].isLeaf && n !in {left, right, p}
    ensures var w := MergeInner(m, p, i, left, right); n in w && InnerOk(w, n, w[n])
  {
    var w := MergeInner(m, p, i, left, right);
    MergeInnerRecs(m, p, i, left, right);
    AdjacentSlots(m, p, i, left, right);
    AdjacentJoin(m, p, i, left, right);
    assert NodeOk(m, n);
    KeepsInner(m, w, n, ChildrenOf(m, left, right));
  }

  lemma MergeInnerHangs(m: Mem, p: Node?, i: int, left: Node, right: Node, c: Node)
    requires CanMergeInner(m, p, i, left, right) && c in m && c != right
    ensures var w := MergeInner(m, p, i, left, right); c in w && null in w && Hangs(w, c, w[c])
  {
    hide InnerOk, Chained, LeafOk;
    MergeInnerRecs(m, p, i, left, right);
    AdjacentSlots(m, p, i, left, right);
    AdjacentJoin(m, p, i, left, right);
    assert NodeOk(m, c);
    RemoveKeeps(m[p].children, i + 1);
  }

  lemma MergeInnerInv(m: Mem, p: Node?, i: int, left: Node, right: Node)
    requires CanMergeInner(m, p, i, left, right)
    ensures Inv(MergeInner(m, p, i, left, right))
  {
    hide Chained, LeafOk, Hangs;
    var w, q := MergeInner(m, p, i, left, right), Joined(m[left], m[p].keys[i], m[right]);
    MergeInnerRecs(m, p, i, left, right);
    AdjacentSlots(m, p, i, left, right);
    forall c | c in w
      ensures NodeOk(w, c)
    {
      assert NodeOk(m, c);
      if m[c].isLeaf { KeepsLeaf(m, w, c); } else {
        if c == left || c == p { MergeInnerSides(m, p, i, left, right); } else { MergeInnerOther(m, p, i, left, right, c); }
      }
      if c != null { MergeInnerHangs(m, p, i, left, right, c); }
    }
  }

  // The tree grows or loses its top level.

  ghost predicate CanGrow(m: Mem, top: Node) {
    Inv(m) && top !in m
  }

  ghost function Grow(m: Mem, top: Node): Mem
    requires CanGrow(m, top)
  {
    var r := m[null];
    Reparent(m, r.children, top)
      [top := r.(parent := null)]
      [null := r.(keys := [], children := [top], height := r.height + 1)]
  }

  lemma GrowInv(m: Mem, top: Node)
    requires CanGrow(m, top)
    ensures Inv(Grow(m, top))
  {
    hide LeafOk, Chained;
    var w := Grow(m, top);
    assert NodeOk(m, null);
    Kids(m, null);
    InnerFits(m, null);
    FitsInner(m, w, top, m[null]);
    assert ChildOk(w, null, w[null], 0);
    var moved := set c | c in m && m[c].parent == null;
    assert null in moved;
    forall c | c in w
      ensures NodeOk(w, c)
    {
      if c != top && c != null {
        assert NodeOk(m, c);
        if m[c].isLeaf { KeepsLeaf(m, w, c); } else { KeepsInner(m, w, c, moved); }
      }
    }
  }

  ghost predicate CanCollapse(m: Mem, top: Node, child: Node) {
    Inv(m) && m[null].children == [top] && top in m && m[top].children == [child] && !m[top].isLeaf
  }

  ghost function Collapse(m: Mem, top: Node, child: Node): Mem
    requires CanCollapse(m, top, child)
  {
    Reparent(m, [child], null)
      [null := m[null].(children := [child], height := m[null].height - 1)]
      - {top}
  }

  /** Every node other than the top one lies below its only child. */
  lemma {:induction false} BelowTop(m: Mem, top: Node, child: Node, c: Node)
    requires CanCollapse(m, top, child) && c in m && c != top
    ensures child in m && m[child].parent == top && m[child].height == m[null].height - 2
    ensures m[c].height <= m[child].height
    decreases m[null].height - m[c].height
  {
    assert NodeOk(m, null) && NodeOk(m, top) && NodeOk(m, c);
    assert ChildOk(m, null, m[null], 0) && ChildOk(m, top, m[top], 0);
    Kids(m, null);
    var i := Position(m, c);
    var p := m[c].parent;
    if p != top {
      assert NodeOk(m, p);
      BelowTop(m, top, child, p);
    }
  }

  lemma CollapseInv(m: Mem, top: Node, child: Node)
    requires CanCollapse(m, top, child)
    ensures Inv(Collapse(m, top, child))
  {
    hide LeafOk, Chained;
    var w := Collapse(m, top, child);
    assert NodeOk(m, null) && NodeOk(m, top);
    assert ChildOk(m, null, m[null], 0) && ChildOk(m, top, m[top], 0);
    Kids(m, null);
    Kids(m, top);
    BelowTop(m, top, child, child);
    assert ChildOk(w, null, w[null], 0);
    forall c | c in w
      ensures NodeOk(w, c)
    {
      if c != null {
        assert NodeOk(m, c);
        BelowTop(m, top, child, c);
        if m[c].isLeaf { KeepsLeaf(m, w, c); } else { KeepsInner(m, w, c, {null, top, child}); }
      }
    }
  }

  // ------------------------------------------------------- entries and occupancy

  /** The leaf holds exactly the entries that fall in its interval. */
  ghost predicate LeafStores(r: Rec, e: map<Key, string>) {
    && |r.keys| == |r.values|
    && (forall i :: 0 <= i < |r.keys| ==> r.keys[i] in e && e[r.keys[i]] == r.values[i])
    && (forall k :: k in e && Holds(r, k) ==> k in r.keys)
  }

  ghost predicate Stores(m: Mem, e: map<Key, string>) {
    forall n {:trigger LeafStores(m[n], e)} :: n in m && m[n].isLeaf ==> LeafStores(m[n], e)
  }

  lemma CutStores(l: Rec, mid: int, e: map<Key, string>, lower: Rec, upper: Rec)
    requires LeafOk(l) && LeafStores(l, e) && 0 < mid < |l.keys|
    requires lower.keys == l.keys[..mid] && lower.values == l.values[..mid] && lower.lo == l.lo && lower.hi == At(l.keys[mid])
    requires upper.keys == l.keys[mid..] && upper.values == l.values[mid..] && upper.lo == At(l.keys[mid]) && upper.hi == l.hi
    ensures LeafStores(lower, e) && LeafStores(upper, e)
  {
    forall k | k in e && Holds(lower, k) ensures k in lower.keys {
      assert Holds(l, k);
      var i :| 0 <= i < |l.keys| && l.keys[i] == k;
      assert i < mid;
    }
    forall k | k in e && Holds(upper, k) ensures k in upper.keys {
      assert l.keys[0] < l.keys[mid] && Holds(l, k);
      var i :| 0 <= i < |l.keys| && l.keys[i] == k;
      assert upper.keys[i - mid] == k;
    }
  }

  lemma JoinStores(l: Rec, r: Rec, e: map<Key, string>, joined: Rec)
    requires LeafStores(l, e) && LeafStores(r, e) && l.hi.At? && r.lo == l.hi
    requires joined.keys == l.keys + r.keys && joined.values == l.values + r.values
    requires joined.lo == l.lo && joined.hi == r.hi
    ensures LeafStores(joined, e)
  {
    forall k | k in e && Holds(joined, k) ensures k in joined.keys {
      assert Holds(l, k) || Holds(r, k);
    }
  }

  lemma SetLeafStores(m: Mem, leaf: Node, ks: seq<Key>, vs: seq<string>, key: Key, e: map<Key, string>, e': map<Key, string>)
    requires CanSetLeaf(m, leaf, ks, vs) && Stores(m, e) && Holds(m[leaf], key)
    requires forall k :: k != key ==> (k in e <==> k in e') && (k in e ==> e[k] == e'[k])
    requires LeafStores(m[leaf].(keys := ks, values := vs), e')
    ensures Stores(SetLeaf(m, leaf, ks, vs), e')
  {
    var w := SetLeaf(m, leaf, ks, vs);
    forall n | n in w && w[n].isLeaf
      ensures LeafStores(w[n], e')
    {
      assert LeafStores(m[n], e);
      assert NodeOk(m, n) && NodeOk(m, leaf);
      if n != leaf {
        if Holds(m[n], key) { Disjoint(m, n, leaf, key); }
        assert key !in m[n].keys;
      }
    }
  }

  lemma CutLeafStores(m: Mem, leaf: Node, right: Node, i: int, mid: int, e: map<Key, string>)
    requires CanCutLeaf(m, leaf, right, i, mid) && Stores(m, e)
    ensures Stores(CutLeaf(m, leaf, right, i, mid), e)
  {
    var w := CutLeaf(m, leaf, right, i, mid);
    assert NodeOk(m, leaf) && NodeOk(m, m[leaf].parent) && LeafStores(m[leaf], e);
    CutStores(m[leaf], mid, e, w[leaf], w[right]);
    forall n | n in w && w[n].isLeaf
      ensures LeafStores(w[n], e)
    {
      if n in m { assert LeafStores(m[n], e); }
    }
  }

  lemma ShiftLeavesStores(m: Mem, p: Node?, i: int, left: Node, right: Node, j: int, e: map<Key, string>)
    requires CanShiftLeaves(m, p, i, left, right, j) && Stores(m, e)
    ensures Stores(ShiftLeaves(m, p, i, left, right, j), e)
  {
    var w, l, r := ShiftLeaves(m, p, i, left, right, j), m[left], m[right];
    AdjacentSlots(m, p, i, left, right);
    assert LeafStores(l, e) && LeafStores(r, e);
    JoinedRun(l, r);
    var run := l.(keys := l.keys + r.keys, values := l.values + r.values, hi := r.hi);
    JoinStores(l, r, e, run);
    CutStores(run, j, e, w[left], w[right]);
    forall n | n in w && w[n].isLeaf
      ensures LeafStores(w[n], e)
    {
      assert LeafStores(m[n], e);
    }
  }

  lemma MergeLeavesStores(m: Mem, p: Node?, i: int, left: Node, right: Node, e: map<Key, string>)
    requires CanMergeLeaves(m, p, i, left, right) && Stores(m, e)
    ensures Stores(MergeLeaves(m, p, i, left, right), e)
  {
    var w := MergeLeaves(m, p, i, left, right);
    AdjacentSlots(m, p, i, left, right);
    assert LeafStores(m[left], e) && LeafStores(m[right], e);
    JoinStores(m[left], m[right], e, w[left]);
    forall n | n in w && w[n].isLeaf
      ensures LeafStores(w[n], e)
    {
      assert LeafStores(m[n], e);
    }
  }

  /** A step on inner nodes leaves the entries alone. */
  lemma KeepsStores(m: Mem, w: Mem, e: map<Key, string>)
    requires Stores(m, e)
    requires forall c :: c in w && w[c].isLeaf ==> c in m && w[c] == m[c].(parent := w[c].parent)
    ensures Stores(w, e)
  {
    forall n | n in w && w[n].isLeaf
      ensures LeafStores(w[n], e)
    {
      assert LeafStores(m[n], e);
    }
  }

  ghost predicate SizeOk(r: Rec, maxKeys: int) {
    && |r.keys| <= maxKeys
    && (r.parent != null ==> (maxKeys + 1) / 2 <= |r.keys|)
    && (!r.isLeaf ==> 1 <= |r.keys|)
  }

  /** Every node but `loose` holds an admissible number of keys. */
  ghost predicate Sizes(m: Mem, maxKeys: int, loose: Node?) {
    forall n {:trigger SizeOk(m[n], maxKeys)} :: n in m && n != null && n != loose ==> SizeOk(m[n], maxKeys)
  }

  lemma InsertSorted(ks: seq<Key>, i: int, k: Key)
    requires Sorted(ks) && 0 <= i <= |ks|
    requires i > 0 ==> ks[i - 1] < k
    requires i < |ks| ==> k < ks[i]
    ensures Sorted(InsertAt(ks, i, k))
  {
    assert i > 0 ==> forall j :: 0 <= j < i ==> ks[j] <= ks[i - 1];
    assert i < |ks| ==> forall j :: i <= j < |ks| ==> ks[i] <= ks[j];
  }

  lemma AddEntry(r: Rec, i: int, k: Key, v: string, e: map<Key, string>)
    requires LeafOk(r) && LeafStores(r, e) && Holds(r, k) && 0 <= i <= |r.keys|
    requires i > 0 ==> r.keys[i - 1] < k
    requires i < |r.keys| ==> k < r.keys[i]
    ensures k !in e
    ensures Sorted(InsertAt(r.keys, i, k)) && Spans(r.lo, InsertAt(r.keys, i, k), r.hi)
    ensures LeafStores(r.(keys := InsertAt(r.keys, i, k), values := InsertAt(r.values, i, v)), e[k := v])
  {
    InsertSorted(r.keys, i, k);
    InsertKeeps(r.keys, i, k);
    AbsentKey(r.keys, i, k);
    AddPairs(r.keys, r.values, i, k, v, e);
  }

  lemma AbsentKey(ks: seq<Key>, i: int, k: Key)
    requires Sorted(ks) && 0 <= i <= |ks|
    requires i > 0 ==> ks[i - 1] < k
    requires i < |ks| ==> k < ks[i]
    ensures k !in ks
  {
    assert i > 0 ==> forall j :: 0 <= j < i ==> ks[j] <= ks[i - 1];
    assert i < |ks| ==> forall j :: i <= j < |ks| ==> ks[i] <= ks[j];
  }

  lemma AddPairs(ks: seq<Key>, vs: seq<string>, i: int, k: Key, v: string, e: map<Key, string>)
    requires |ks| == |vs| && 0 <= i <= |ks| && k !in ks
    requires forall j :: 0 <= j < |ks| ==> ks[j] in e && e[ks[j]] == vs[j]
    ensures var ks', vs', e' := InsertAt(ks, i, k), InsertAt(vs, i, v), e[k := v];
      forall j :: 0 <= j < |ks'| ==> ks'[j] in e' && e'[ks'[j]] == vs'[j]
  {
  }

  lemma DropEntry(r: Rec, i: int, e: map<Key, string>)
    requires LeafOk(r) && LeafStores(r, e) && 0 <= i < |r.keys|
    ensures Holds(r, r.keys[i]) && r.keys[i] in e
    ensures Sorted(RemoveAt(r.keys, i)) && Spans(r.lo, RemoveAt(r.keys, i), r.hi)
    ensures LeafStores(r.(keys := RemoveAt(r.keys, i), values := RemoveAt(r.values, i)), e - {r.keys[i]})
  {
    RemoveKeeps(r.keys, i);
  }

  /** Occupancy after a step that changes the sizes of the touched nodes only. */
  lemma SizesStep(m: Mem, w: Mem, maxKeys: int, loose: Node?, touched: set<Node?>, loose': Node?)
    requires Sizes(m, maxKeys, loose)
    requires loose == loose' || loose in touched || loose !in w
    requires forall n :: n in w && n !in touched ==>
      n in m && |w[n].keys| == |m[n].keys| && w[n].isLeaf == m[n].isLeaf && (w[n].parent == null ==> m[n].parent == null)
        && (w[n].parent != null ==> m[n].parent != null)
    requires forall n :: n in touched && n in w && n != null && n != loose' ==> SizeOk(w[n], maxKeys)
    ensures Sizes(w, maxKeys, loose')
  {
    forall n | n in w && n != null && n != loose'
      ensures SizeOk(w[n], maxKeys)
    {
      if n !in touched { assert SizeOk(m[n], maxKeys); }
    }
  }

  // -------------------------------------------- each step on a whole good tree

  ghost predicate Good(m: Mem, e: map<Key, string>, maxKeys: int, loose: Node?) {
    && maxKeys >= 2 && maxKeys % 2 == 0
    && Inv(m) && Stores(m, e) && Sizes(m, maxKeys, loose)
  }

  lemma SizeIn(m: Mem, e: map<Key, string>, maxKeys: int, loose: Node?, n: Node)
    requires Good(m, e, maxKeys, loose) && n in m && n != loose
    ensures maxKeys >= 2 && maxKeys % 2 == 0 && SizeOk(m[n], maxKeys)
  {
  }

  lemma LeafIn(m: Mem, e: map<Key, string>, maxKeys: int, loose: Node?, n: Node)
    requires Good(m, e, maxKeys, loose) && n in m && m[n].isLeaf
    ensures |m[n].values| == |m[n].keys| && m[n].next != n && (m[n].next != null ==> m[n].next in m)
  {
    assert NodeOk(m, n);
  }

  /** Nothing but the touched nodes differs. */
  ghost predicate Elsewhere(m: Mem, w: Mem, touched: set<Node?>) {
    forall n {:trigger w[n]} {:trigger n in w} :: n in w && n !in touched ==> n in m && w[n] == m[n]
  }

  lemma OverwriteStep(m: Mem, e: map<Key, string>, maxKeys: int, leaf: Node, i: int, v: string) returns (w: Mem)
    requires Good(m, e, maxKeys, null) && leaf in m && m[leaf].isLeaf && 0 <= i < |m[leaf].keys|
    ensures |m[leaf].values| == |m[leaf].keys|
    ensures Good(w, e[m[leaf].keys[i] := v], maxKeys, null) && m[leaf].keys[i] in e
    ensures w.Keys == m.Keys && w[leaf] == m[leaf].(values := m[leaf].values[i := v]) && Elsewhere(m, w, {leaf})
  {
    assert NodeOk(m, leaf) && LeafStores(m[leaf], e);
    var ks, vs, k := m[leaf].keys, m[leaf].values[i := v], m[leaf].keys[i];
    SetLeafInv(m, leaf, ks, vs);
    SetLeafStores(m, leaf, ks, vs, k, e, e[k := v]);
    w := SetLeaf(m, leaf, ks, vs);
    SizesStep(m, w, maxKeys, null, {}, null);
  }

  lemma AddStep(m: Mem, e: map<Key, string>, maxKeys: int, leaf: Node, i: int, k: Key, v: string) returns (w: Mem)
    requires Good(m, e, maxKeys, null) && leaf in m && m[leaf].isLeaf && Holds(m[leaf], k) && 0 <= i <= |m[leaf].keys|
    requires i > 0 ==> m[leaf].keys[i - 1] < k
    requires i < |m[leaf].keys| ==> k < m[leaf].keys[i]
    ensures |m[leaf].values| == |m[leaf].keys| <= maxKeys && k !in e
    ensures Good(w, e[k := v], maxKeys, leaf)
    ensures w.Keys == m.Keys && Elsewhere(m, w, {leaf})
    ensures w[leaf] == m[leaf].(keys := InsertAt(m[leaf].keys, i, k), values := InsertAt(m[leaf].values, i, v))
    ensures |InsertAt(m[leaf].keys, i, k)| <= maxKeys ==> Good(w, e[k := v], maxKeys, null)
  {
    assert NodeOk(m, leaf) && LeafStores(m[leaf], e) && SizeOk(m[leaf], maxKeys);
    AddEntry(m[leaf], i, k, v, e);
    var ks, vs := InsertAt(m[leaf].keys, i, k), InsertAt(m[leaf].values, i, v);
    SetLeafInv(m, leaf, ks, vs);
    SetLeafStores(m, leaf, ks, vs, k, e, e[k := v]);
    w := SetLeaf(m, leaf, ks, vs);
    SizesStep(m, w, maxKeys, null, {null, leaf}, leaf);
    if |ks| <= maxKeys { SizesStep(m, w, maxKeys, null, {leaf}, null); }
  }

  /** The tree after left was cut at key: right is already a child of p in m, where p held
      separators ks and children cs before. */
  ghost predicate Ahead(m: Mem, e: map<Key, string>, maxKeys: int, left: Node, key: Key, right: Node,
                        p: Node?, i: int, ks: seq<Key>, cs: seq<Node>) {
    && Good(m, e, maxKeys, p)
    && left in m && right in m && p in m && left != right && p != left && p != right
    && m[left].parent == p && m[right].parent == p && !m[p].isLeaf && m[left].height + 1 == m[p].height <= m[null].height
    && (maxKeys + 1) / 2 <= |m[left].keys| && (maxKeys + 1) / 2 <= |m[right].keys|
    && 0 <= i <= |ks| && |cs| == |ks| + 1 && cs[i] == left
    && m[p].keys == InsertAt(ks, i, key) && m[p].children == InsertAt(cs, i + 1, right)
    && (p != null ==> SizeOk(m[p].(keys := ks), maxKeys))
  }

  lemma CutLeafStep(m: Mem, e: map<Key, string>, maxKeys: int, leaf: Node, right: Node) returns (w: Mem, i: int)
    requires Good(m, e, maxKeys, leaf) && leaf in m && m[leaf].isLeaf && |m[leaf].keys| == maxKeys + 1 && right !in m
    ensures m[leaf].parent in m && |m[leaf].values| == |m[leaf].keys|
    ensures var p, l, mid := m[leaf].parent, m[leaf], |m[leaf].keys| / 2;
      && w.Keys == m.Keys + {right} && Ahead(w, e, maxKeys, leaf, l.keys[mid], right, p, i, m[p].keys, m[p].children)
      && 0 < mid < |l.keys| && l.next != leaf
      && w[leaf] == l.(keys := l.keys[..mid], values := l.values[..mid], next := right, hi := At(l.keys[mid]))
      && w[right] == Rec(l.keys[mid..], true, p, l.next, leaf, [], l.values[mid..], 0, At(l.keys[mid]), l.hi)
      && w[p] == m[p].(keys := w[p].keys, children := w[p].children)
      && (l.next != null ==> l.next in m && w[l.next] == m[l.next].(prev := right))
      && Elsewhere(m, w, {leaf, right, p, if l.next == null then leaf else l.next})
  {
    assert NodeOk(m, leaf);
    var p := m[leaf].parent;
    i := Position(m, leaf);
    if p != null { assert SizeOk(m[p], maxKeys); }
    if m[leaf].next != null { assert NodeOk(m, m[leaf].next); }
    var mid := |m[leaf].keys| / 2;
    CutLeafInv(m, leaf, right, i, mid);
    CutLeafStores(m, leaf, right, i, mid, e);
    CutLeafSizes(m, maxKeys, leaf, right, i, mid);
    w := CutLeaf(m, leaf, right, i, mid);
    assert NodeOk(m, p);
  }

  lemma CutLeafSizes(m: Mem, maxKeys: int, leaf: Node, right: Node, i: int, mid: int)
    requires CanCutLeaf(m, leaf, right, i, mid) && Sizes(m, maxKeys, leaf) && maxKeys >= 2 && maxKeys % 2 == 0
    requires |m[leaf].keys| == maxKeys + 1 && mid == |m[leaf].keys| / 2
    ensures Sizes(CutLeaf(m, leaf, right, i, mid), maxKeys, m[leaf].parent)
  {
    var w := CutLeaf(m, leaf, right, i, mid);
    assert NodeOk(m, leaf) && NodeOk(m, m[leaf].parent);
    SizesStep(m, w, maxKeys, leaf, {leaf, right, m[leaf].parent}, m[leaf].parent);
  }

  lemma CutInnerAhead(m: Mem, e: map<Key, string>, maxKeys: int, n: Node, right: Node, i: int, mid: int)
    requires CanCutInner(m, n, right, i, mid) && Good(m, e, maxKeys, n)
    requires |m[n].keys| == maxKeys + 1 && mid == |m[n].keys| / 2
    ensures m[n].parent in m && Ahead(CutInner(m, n, right, i, mid), e, maxKeys, n, m[n].keys[mid], right, m[n].parent, i,
                                      m[m[n].parent].keys, m[m[n].parent].children)
  {
    hide Chained, LeafOk;
    assert NodeOk(m, n);
    CutInnerInv(m, n, right, i, mid);
    CutInnerRecs(m, n, right, i, mid);
    CutInnerGood(m, e, maxKeys, n, right, i, mid);
    var p := m[n].parent;
    assert NodeOk(m, p) && ChildOk(m, p, m[p], i);
    if p != null { assert SizeOk(m[p], maxKeys); }
  }

  lemma CutInnerStep(m: Mem, e: map<Key, string>, maxKeys: int, n: Node, right: Node) returns (w: Mem, i: int)
    requires Good(m, e, maxKeys, n) && n in m && !m[n].isLeaf && |m[n].keys| == maxKeys + 1 && right !in m
    ensures m[n].parent in m && |m[n].children| == |m[n].keys| + 1
    ensures var p, r, mid := m[n].parent, m[n], |m[n].keys| / 2;
      && w.Keys == m.Keys + {right} && Ahead(w, e, maxKeys, n, r.keys[mid], right, p, i, m[p].keys, m[p].children)
      && 0 < mid < |r.keys| && n !in r.children && p !in r.children && right !in r.children
      && w[n] == r.(keys := r.keys[..mid], children := r.children[..mid + 1], hi := At(r.keys[mid]))
      && w[right] == r.(keys := r.keys[mid + 1..], children := r.children[mid + 1..], lo := At(r.keys[mid]))
      && w[p] == m[p].(keys := w[p].keys, children := w[p].children)
      && (forall c :: c in m && c != n && c != p ==>
            w[c] == if c in r.children[mid + 1..] then m[c].(parent := right) else m[c])
  {
    hide Ahead, Chained, LeafOk, Hangs;
    assert NodeOk(m, n);
    i := Position(m, n);
    var mid := |m[n].keys| / 2;
    w := CutInner(m, n, right, i, mid);
    CutInnerRecs(m, n, right, i, mid);
    CutInnerAhead(m, e, maxKeys, n, right, i, mid);
    Kids(m, n);
  }

  lemma CutInnerGood(m: Mem, e: map<Key, string>, maxKeys: int, n: Node, right: Node, i: int, mid: int)
    requires CanCutInner(m, n, right, i, mid) && Good(m, e, maxKeys, n)
    requires |m[n].keys| == maxKeys + 1 && mid == |m[n].keys| / 2
    ensures var w := CutInner(m, n, right, i, mid); Stores(w, e) && Sizes(w, maxKeys, m[n].parent)
  {
    var w := CutInner(m, n, right, i, mid);
    CutInnerRecs(m, n, right, i, mid);
    Kids(m, n);
    KeepsStores(m, w, e);
    SizesStep(m, w, maxKeys, n, {n, right, m[n].parent}, m[n].parent);
  }

  /** Once the heap has caught up, only p may be too full. */
  lemma LinkStep(m: Mem, e: map<Key, string>, maxKeys: int, left: Node, key: Key, right: Node,
                 p: Node, i: int, ks: seq<Key>, cs: seq<Node>)
    requires Ahead(m, e, maxKeys, left, key, right, p, i, ks, cs)
    ensures Sorted(InsertAt(ks, i, key)) && |m[p].keys| <= maxKeys + 1
    ensures Good(m, e, maxKeys, if |m[p].keys| > maxKeys then p else null)
  {
    assert NodeOk(m, p);
    if |m[p].keys| <= maxKeys { SizesStep(m, m, maxKeys, p, {p}, null); }
  }

  lemma GrowStep(m: Mem, e: map<Key, string>, maxKeys: int, left: Node, key: Key, right: Node, top: Node) returns (w: Mem)
    requires Ahead(m, e, maxKeys, left, key, right, null, 0, [], [left]) && top !in m
    ensures Good(w, e, maxKeys, null) && w.Keys == m.Keys + {top} && Elsewhere(m, w, {null, top, left, right})
    ensures w[top] == m[null].(parent := null) && w[top].keys == [key] && w[top].children == [left, right]
    ensures w[null].keys == [] && w[null].children == [top]
    ensures w[left] == m[left].(parent := top) && w[right] == m[right].(parent := top)
  {
    GrowInv(m, top);
    w := Grow(m, top);
    assert NodeOk(m, null);
    Kids(m, null);
    KeepsStores(m, w, e);
    assert m[null].keys == [key] && m[null].children == [left, right];
    forall n | n in w && n != null
      ensures SizeOk(w[n], maxKeys)
    {
      if n != top { assert SizeOk(m[n], maxKeys); }
    }
  }

  /** The scan position for a separator is the slot of the child that was cut. */
  lemma ScanFindsSlot(ks: seq<Key>, i: int, k: Key, idx: int)
    requires 0 <= i <= |ks| && Sorted(InsertAt(ks, i, k)) && 0 <= idx <= |ks|
    requires forall j :: 0 <= j < idx ==> ks[j] < k
    requires idx < |ks| ==> k <= ks[idx]
    ensures idx == i
  {
    var t := InsertAt(ks, i, k);
    forall j | 0 <= j < i ensures ks[j] < k { assert t[j] < t[i]; }
    assert i < |ks| ==> t[i] < t[i + 1] == ks[i];
  }

  // Deletion.

  /** A node that has just lost a key: it may be one short, unless it is the root. */
  ghost predicate OneShort(r: Rec, maxKeys: int) {
    |r.keys| <= maxKeys && (r.parent != null ==> (maxKeys + 1) / 2 - 1 <= |r.keys|)
  }

  lemma DropStep(m: Mem, e: map<Key, string>, maxKeys: int, leaf: Node, i: int) returns (w: Mem)
    requires Good(m, e, maxKeys, null) && leaf in m && m[leaf].isLeaf && 0 <= i < |m[leaf].keys|
    ensures |m[leaf].values| == |m[leaf].keys| && m[leaf].keys[i] in e
    ensures w.Keys == m.Keys && Elsewhere(m, w, {leaf})
    ensures w[leaf] == m[leaf].(keys := RemoveAt(m[leaf].keys, i), values := RemoveAt(m[leaf].values, i))
    ensures OneShort(w[leaf], maxKeys)
    ensures Good(w, e - {m[leaf].keys[i]}, maxKeys, leaf)
  {
    assert NodeOk(m, leaf) && LeafStores(m[leaf], e) && SizeOk(m[leaf], maxKeys);
    var k := m[leaf].keys[i];
    DropEntry(m[leaf], i, e);
    var ks, vs := RemoveAt(m[leaf].keys, i), RemoveAt(m[leaf].values, i);
    SetLeafInv(m, leaf, ks, vs);
    SetLeafStores(m, leaf, ks, vs, k, e, e - {k});
    w := SetLeaf(m, leaf, ks, vs);
    SizesStep(m, w, maxKeys, null, {null, leaf}, leaf);
  }

  /** Adjacent leaves share out their entries; whoever was short may be mended by it. */
  lemma ShiftLeavesStep(m: Mem, e: map<Key, string>, maxKeys: int, p: Node?, i: int, left: Node, right: Node, j: int,
                        loose: Node?, loose': Node?) returns (w: Mem)
    requires Good(m, e, maxKeys, loose) && Adjacent(m, p, i, left, right) && m[left].isLeaf
    requires 0 < j < |m[left].keys| + |m[right].keys|
    requires loose == left || loose == right
    requires loose' == null || loose' == loose
    requires loose' != left ==> (maxKeys + 1) / 2 <= j <= maxKeys
    requires loose' != right ==> (maxKeys + 1) / 2 <= |m[left].keys| + |m[right].keys| - j <= maxKeys
    ensures |m[left].values| == |m[left].keys| && |m[right].values| == |m[right].keys|
    ensures var ks, vs := m[left].keys + m[right].keys, m[left].values + m[right].values;
      && Good(w, e, maxKeys, loose') && w.Keys == m.Keys && left != right && left != p && right != p
      && w[left] == m[left].(keys := ks[..j], values := vs[..j], hi := At(ks[j]))
      && w[right] == m[right].(keys := ks[j..], values := vs[j..], lo := At(ks[j]))
      && w[p] == m[p].(keys := m[p].keys[i := ks[j]])
      && Elsewhere(m, w, {left, right, p})
  {
    AdjacentSlots(m, p, i, left, right);
    ShiftLeavesInv(m, p, i, left, right, j);
    ShiftLeavesStores(m, p, i, left, right, j, e);
    w := ShiftLeaves(m, p, i, left, right, j);
    SizesStep(m, w, maxKeys, loose, {left, right}, loose');
  }

  /** The tree after two children of p became one: p, in m, has already lost key and child,
      and held separators ks and children cs before. */
  ghost predicate Shrunk(m: Mem, e: map<Key, string>, maxKeys: int, p: Node, keyIdx: int, childIdx: int, ks: seq<Key>, cs: seq<Node>) {
    && Good(m, e, maxKeys, p) && p in m && !m[p].isLeaf
    && 0 <= keyIdx < |ks| && 0 <= childIdx < |cs|
    && m[p].keys == RemoveAt(ks, keyIdx) && m[p].children == RemoveAt(cs, childIdx)
    && SizeOk(m[p].(keys := ks), maxKeys)
  }

  lemma MergeLeavesStep(m: Mem, e: map<Key, string>, maxKeys: int, p: Node, i: int, left: Node, right: Node, loose: Node?) returns (w: Mem)
    requires Good(m, e, maxKeys, loose) && Adjacent(m, p, i, left, right) && m[left].isLeaf
    requires loose == left || loose == right
    requires (maxKeys + 1) / 2 <= |m[left].keys| + |m[right].keys| <= maxKeys
    ensures |m[left].values| == |m[left].keys| && |m[right].values| == |m[right].keys|
    ensures left != right && left != p && right != p && m[right].next != left && m[right].next != right
    ensures var l, r := m[left], m[right];
      && Shrunk(w, e, maxKeys, p, i, i + 1, m[p].keys, m[p].children) && w.Keys == m.Keys - {right}
      && w[left] == l.(keys := l.keys + r.keys, values := l.values + r.values, next := r.next, hi := r.hi)
      && w[p] == m[p].(keys := w[p].keys, children := w[p].children)
      && (r.next != null ==> r.next in m && w[r.next] == m[r.next].(prev := left))
      && Elsewhere(m, w, {left, p, if r.next == null then left else r.next})
      && w[null].height == m[null].height
  {
    AdjacentSlots(m, p, i, left, right);
    AdjacentChain(m, p, i, left, right);
    if m[right].next != null { assert NodeOk(m, m[right].next); }
    assert SizeOk(m[p], maxKeys);
    MergeLeavesInv(m, p, i, left, right);
    MergeLeavesStores(m, p, i, left, right, e);
    w := MergeLeaves(m, p, i, left, right);
    SizesStep(m, w, maxKeys, loose, {left, right, p}, p);
  }

  lemma ShiftInnerStep(m: Mem, e: map<Key, string>, maxKeys: int, p: Node?, i: int, left: Node, right: Node, j: int,
                       loose: Node?) returns (w: Mem)
    requires Good(m, e, maxKeys, loose) && Adjacent(m, p, i, left, right) && !m[left].isLeaf
    requires loose == left || loose == right
    requires (maxKeys + 1) / 2 <= j <= maxKeys
    requires (maxKeys + 1) / 2 <= |m[left].keys| + |m[right].keys| - j <= maxKeys
    ensures var q := Joined(m[left], m[p].keys[i], m[right]);
      && |q.children| == |q.keys| + 1 && left != right && left != p && right != p
      && Good(w, e, maxKeys, null) && w.Keys == m.Keys
      && w[left] == q.(keys := q.keys[..j], children := q.children[..j + 1], hi := At(q.keys[j]))
      && w[right] == q.(keys := q.keys[j + 1..], children := q.children[j + 1..], lo := At(q.keys[j]))
      && w[p] == m[p].(keys := m[p].keys[i := q.keys[j]])
      && (forall c :: c in q.children ==>
            c in m && w[c] == m[c].(parent := if c in q.children[j + 1..] then right else left))
      && (forall c :: c in m && c !in q.children && c !in {left, right, p} ==> w[c] == m[c])
  {
    AdjacentSlots(m, p, i, left, right);
    AdjacentJoin(m, p, i, left, right);
    ShiftInnerInv(m, p, i, left, right, j);
    ShiftInnerRecs(m, p, i, left, right, j);
    ShiftInnerGood(m, e, maxKeys, p, i, left, right, j, loose);
    w := ShiftInner(m, p, i, left, right, j);
  }

  lemma ShiftInnerGood(m: Mem, e: map<Key, string>, maxKeys: int, p: Node?, i: int, left: Node, right: Node, j: int, loose: Node?)
    requires CanShiftInner(m, p, i, left, right, j) && Good(m, e, maxKeys, loose)
    requires loose == left || loose == right
    requires (maxKeys + 1) / 2 <= j <= maxKeys
    requires (maxKeys + 1) / 2 <= |m[left].keys| + |m[right].keys| - j <= maxKeys
    ensures var w := ShiftInner(m, p, i, left, right, j); Stores(w, e) && Sizes(w, maxKeys, null)
  {
    hide InnerOk, Chained, Hangs, LeafOk, ShiftInner;
    var w := ShiftInner(m, p, i, left, right, j);
    AdjacentSlots(m, p, i, left, right);
    ShiftInnerRecs(m, p, i, left, right, j);
    KidsStayBelow(m, p, i, left, right);
    KeepsStores(m, w, e);
    SizesStep(m, w, maxKeys, loose, {left, right}, null);
  }

  /** The children of two adjacent nodes are not at the top. */
  lemma KidsStayBelow(m: Mem, p: Node?, i: int, left: Node, right: Node)
    requires Adjacent(m, p, i, left, right) && !m[left].isLeaf
    ensures forall c :: c in m[left].children + m[right].children ==> c in m && m[c].parent != null
  {
    AdjacentJoin(m, p, i, left, right);
  }

  lemma MergeInnerStep(m: Mem, e: map<Key, string>, maxKeys: int, p: Node, i: int, left: Node, right: Node, loose: Node?) returns (w: Mem)
    requires Good(m, e, maxKeys, loose) && Adjacent(m, p, i, left, right) && !m[left].isLeaf
    requires loose == left || loose == right
    requires (maxKeys + 1) / 2 <= |m[left].keys| + 1 + |m[right].keys| <= maxKeys
    ensures left != right && left != p && right != p
    ensures var q := Joined(m[left], m[p].keys[i], m[right]);
      && left !in q.children && right !in q.children && p !in q.children
      && Shrunk(w, e, maxKeys, p, i, i + 1, m[p].keys, m[p].children) && w.Keys == m.Keys - {right}
      && w[left] == q && w[p] == m[p].(keys := w[p].keys, children := w[p].children)
      && (forall c :: c in q.children ==> c in m && c != right && w[c] == m[c].(parent := left))
      && (forall c :: c in m && c !in q.children && c !in {left, right, p} ==> w[c] == m[c])
      && w[null].height == m[null].height
  {
    AdjacentSlots(m, p, i, left, right);
    AdjacentJoin(m, p, i, left, right);
    assert SizeOk(m[p], maxKeys);
    MergeInnerInv(m, p, i, left, right);
    MergeInnerRecs(m, p, i, left, right);
    w := MergeInner(m, p, i, left, right);
    KeepsStores(m, w, e);
    SizesStep(m, w, maxKeys, loose, {left, right, p}, p);
  }

  lemma CollapseStep(m: Mem, e: map<Key, string>, maxKeys: int, top: Node, child: Node) returns (w: Mem)
    requires Good(m, e, maxKeys, top) && m[null].children == [top] && m[null].keys == [] && top in m && m[top].children == [child] && !m[top].isLeaf
    ensures Good(w, e, maxKeys, null) && w.Keys == m.Keys - {top} && child in w && child != top
    ensures w[null].keys == [] && w[null].children == [child]
    ensures w[child] == m[child].(parent := null) && Elsewhere(m, w, {null, child})
  {
    CollapseInv(m, top, child);
    assert NodeOk(m, top) && ChildOk(m, top, m[top], 0);
    BelowTop(m, top, child, child);
    w := Collapse(m, top, child);
    KeepsStores(m, w, e);
    assert child in m && SizeOk(m[child], maxKeys);
    SizesStep(m, w, maxKeys, top, {child, null}, null);
  }

  /** A leaf's neighbours in the chain are its siblings exactly when they share its parent. */
  lemma ChainSiblings(m: Mem, p: Node?, i: int, leaf: Node)
    requires Inv(m) && leaf in m && m[leaf].isLeaf && m[leaf].parent == p && p in m
    requires |m[p].children| == |m[p].keys| + 1 && 0 <= i < |m[p].children| && m[p].children[i] == leaf && !m[p].isLeaf
    ensures m[leaf].prev != null ==> m[leaf].prev in m && m[leaf].prev != leaf && m[m[leaf].prev].isLeaf
    ensures m[leaf].next != null ==> m[leaf].next in m && m[leaf].next != leaf && m[m[leaf].next].isLeaf
    ensures m[leaf].prev != null && m[m[leaf].prev].parent == p <==> i > 0
    ensures m[leaf].next != null && m[m[leaf].next].parent == p <==> i < |m[p].keys|
    ensures i > 0 ==> m[leaf].prev == m[p].children[i - 1]
    ensures i < |m[p].keys| ==> m[leaf].next == m[p].children[i + 1]
  {
    assert NodeOk(m, leaf) && NodeOk(m, p) && ChildOk(m, p, m[p], i);
    var x, y := m[leaf].prev, m[leaf].next;
    if i > 0 {
      assert ChildOk(m, p, m[p], i - 1);
      AdjacentSlots(m, p, i - 1, m[p].children[i - 1], leaf);
      AdjacentChain(m, p, i - 1, m[p].children[i - 1], leaf);
    } else if x != null && m[x].parent == p {
      var j := Position(m, x);
    }
    if i < |m[p].keys| {
      assert ChildOk(m, p, m[p], i + 1);
      AdjacentChain(m, p, i, leaf, m[p].children[i + 1]);
    } else if y != null && m[y].parent == p {
      var j := Position(m, y);
    }
  }

  /** The separator before a leaf moves up to the leaf's first key. */
  lemma SeparatorStep(m: Mem, e: map<Key, string>, maxKeys: int, p: Node, i: int, leaf: Node) returns (w: Mem)
    requires Good(m, e, maxKeys, leaf) && p in m && leaf in m && m[leaf].isLeaf && |m[leaf].keys| > 0
    requires |m[p].children| == |m[p].keys| + 1 && 0 <= i < |m[p].keys| && m[p].children[i + 1] == leaf && !m[p].isLeaf
    ensures Good(w, e, maxKeys, leaf) && w.Keys == m.Keys
    ensures w[p] == m[p].(keys := m[p].keys[i := m[leaf].keys[0]])
    ensures w[leaf] == m[leaf].(lo := w[leaf].lo)
    ensures forall c :: c in m && c != p ==> w[c] == m[c].(lo := w[c].lo, hi := w[c].hi)
  {
    hide Chained, Hangs;
    assert NodeOk(m, p) && ChildOk(m, p, m[p], i);
    var left := m[p].children[i];
    AdjacentSlots(m, p, i, left, leaf);
    assert SizeOk(m[left], maxKeys);
    var j := |m[left].keys|;
    ShiftLeavesInv(m, p, i, left, leaf, j);
    ShiftLeavesStores(m, p, i, left, leaf, j, e);
    w := ShiftLeaves(m, p, i, left, leaf, j);
    assert (m[left].keys + m[leaf].keys)[..j] == m[left].keys && (m[left].keys + m[leaf].keys)[j..] == m[leaf].keys;
    assert (m[left].values + m[leaf].values)[..j] == m[left].values && (m[left].values + m[leaf].values)[j..] == m[leaf].values;
    SizesStep(m, w, maxKeys, leaf, {}, leaf);
  }

  lemma Mended(m: Mem, e: map<Key, string>, maxKeys: int, n: Node)
    requires Good(m, e, maxKeys, n) && (n in m ==> SizeOk(m[n], maxKeys))
    ensures Good(m, e, maxKeys, null)
  {
    SizesStep(m, m, maxKeys, n, {n}, null);
  }

  lemma OnlyRoot(m: Mem, root: Node)
    requires Inv(m) && m[null].children == [root]
    ensures forall n: Node :: n in m ==> (m[n].parent == null <==> n == root)
  {
    assert NodeOk(m, null);
    Kids(m, null);
  }

  lemma MoveLast<T>(a: seq<T>, b: seq<T>)
    requires |a| > 0
    ensures (a + b)[..|a| - 1] == a[..|a| - 1]
    ensures (a + b)[|a| - 1..] == [a[|a| - 1]] + b
  {
  }

  lemma MoveFirst<T>(a: seq<T>, b: seq<T>)
    requires |b| > 0
    ensures (a + b)[..|a| + 1] == a + [b[0]]
    ensures (a + b)[|a| + 1..] == b[1..]
  {
  }

  lemma MoveLastAround<T>(a: seq<T>, x: T, b: seq<T>)
    requires |a| > 0
    ensures (a + [x] + b)[..|a| - 1] == a[..|a| - 1] && (a + [x] + b)[|a| - 1] == a[|a| - 1]
    ensures (a + [x] + b)[|a|..] == [x] + b
  {
  }

  lemma MoveFirstAround<T>(a: seq<T>, x: T, b: seq<T>)
    requires |b| > 0
    ensures (a + [x] + b)[..|a| + 1] == a + [x] && (a + [x] + b)[|a| + 1] == b[0]
    ensures (a + [x] + b)[|a| + 2..] == b[1..]
  {
  }

  /** The last child of left moves over the separator to the front of right. */
  lemma RotateRightStep(m: Mem, e: map<Key, string>, maxKeys: int, p: Node, i: int, left: Node, right: Node) returns (w: Mem)
    requires Good(m, e, maxKeys, right) && Adjacent(m, p, i, left, right) && !m[left].isLeaf
    requires |m[right].keys| == (maxKeys + 1) / 2 - 1 && (maxKeys + 1) / 2 < |m[left].keys| <= maxKeys
    ensures |m[left].children| == |m[left].keys| + 1
    ensures var l, r, n := m[left], m[right], |m[left].keys| - 1;
      var c := l.children[n + 1];
      && Good(w, e, maxKeys, null) && w.Keys == m.Keys && c in m && left != right && c !in {left, right, p} && left != p && right != p
      && w[left] == l.(keys := l.keys[..n], children := l.children[..n + 1], hi := At(l.keys[n]))
      && w[right].keys == [m[p].keys[i]] + r.keys && w[right].children == [c] + r.children
      && w[right].parent == r.parent && w[right].isLeaf == r.isLeaf
      && w[p] == m[p].(keys := m[p].keys[i := l.keys[n]])
      && w[c] == m[c].(parent := right)
      && Elsewhere(m, w, {left, right, p, c})
  {
    var l, r, k, j := m[left], m[right], m[p].keys[i], |m[left].keys| - 1;
    var q := Joined(l, k, r);
    AdjacentSlots(m, p, i, left, right);
    AdjacentJoin(m, p, i, left, right);
    Kids(m, left);
    Kids(m, right);
    w := ShiftInnerStep(m, e, maxKeys, p, i, left, right, j, right);
    MoveLastAround(l.keys, k, r.keys);
    MoveLast(l.children, r.children);
    forall c | c in m && c !in {left, right, p, l.children[j + 1]}
      ensures w[c] == m[c]
    {
      if c in l.children {
        LeftNotLast(m, l, r, c);
      }
    }
  }

  lemma LeftNotLast(m: Mem, l: Rec, r: Rec, c: Node)
    requires SeparatorsOk(l) && c in l.children && c != l.children[|l.keys|] && c !in r.children
    ensures c !in [l.children[|l.keys|]] + r.children
  {
  }

  /** The first child of right moves over the separator to the end of left. */
  lemma RotateLeftStep(m: Mem, e: map<Key, string>, maxKeys: int, p: Node, i: int, left: Node, right: Node) returns (w: Mem)
    requires Good(m, e, maxKeys, left) && Adjacent(m, p, i, left, right) && !m[left].isLeaf
    requires |m[left].keys| == (maxKeys + 1) / 2 - 1 && (maxKeys + 1) / 2 < |m[right].keys| <= maxKeys
    ensures |m[right].children| == |m[right].keys| + 1
    ensures var l, r := m[left], m[right];
      var c := r.children[0];
      && Good(w, e, maxKeys, null) && w.Keys == m.Keys && c in m && left != right && c !in {left, right, p} && left != p && right != p
      && w[left].keys == l.keys + [m[p].keys[i]] && w[left].children == l.children + [c]
      && w[left].parent == l.parent && w[left].isLeaf == l.isLeaf
      && w[right].keys == r.keys[1..] && w[right].children == r.children[1..]
      && w[right].parent == r.parent && w[right].isLeaf == r.isLeaf
      && w[p] == m[p].(keys := m[p].keys[i := r.keys[0]])
      && w[c] == m[c].(parent := left)
      && Elsewhere(m, w, {left, right, p, c})
  {
    var l, r, k, j := m[left], m[right], m[p].keys[i], |m[left].keys| + 1;
    var q := Joined(l, k, r);
    AdjacentSlots(m, p, i, left, right);
    AdjacentJoin(m, p, i, left, right);
    Kids(m, left);
    Kids(m, right);
    w := ShiftInnerStep(m, e, maxKeys, p, i, left, right, j, left);
    MoveFirstAround(l.keys, k, r.keys);
    MoveFirst(l.children, r.children);
    assert r.children[0] in q.children && r.children[0] in r.children;
    assert r.children[0] !in r.children[1..] by { FirstOnce(m, right); }
    forall c | c in m && c !in {left, right, p, r.children[0]}
      ensures w[c] == m[c]
    {
      assert c in r.children ==> c in r.children[1..];
    }
  }

  lemma FirstOnce(m: Mem, n: Node)
    requires n in m && InnerOk(m, n, m[n])
    ensures m[n].children[0] !in m[n].children[1..]
  {
    var cs := m[n].children;
    forall j | 0 <= j < |cs[1..]| ensures cs[1..][j] != cs[0] { Siblings(m, n, 0, j + 1); }
  }

  lemma OnlyPlace(m: Mem, n: Node, i: int, c: Node)
    requires n in m && InnerOk(m, n, m[n]) && 0 <= i < |m[n].children| && m[n].children[i] == c
    ensures forall j :: 0 <= j < |m[n].children| ==> (m[n].children[j] == c <==> j == i)
  {
    forall j | 0 <= j < |m[n].children| && j != i ensures m[n].children[j] != c {
      if i < j { Siblings(m, n, i, j); } else { Siblings(m, n, j, i); }
    }
  }

  // -------------------------------------------------- reading along the leaf chain

  ghost predicate Before(a: Rec, b: Rec) {
    b.lo.At? && (a.lo.At? ==> a.lo.key < b.lo.key)
  }

  /** The leaves from n on. */
  ghost function Onward(m: Mem, n: Node?): set<Node?> {
    if n == null || n !in m then {} else set x | x in m && m[x].isLeaf && !Before(m[x], m[n])
  }

  lemma OnwardShrinks(m: Mem, n: Node)
    requires Inv(m) && n in m && m[n].isLeaf
    ensures m[n].next != null ==> m[n].next in m && m[m[n].next].isLeaf && m[m[n].next].lo == m[n].hi
    ensures m[n].next == null ==> m[n].hi == Inf
    ensures n in Onward(m, n)
    ensures m[n].next != null ==> Onward(m, m[n].next) < Onward(m, n)
  {
    assert NodeOk(m, n);
    var y := m[n].next;
    if y != null {
      assert Onward(m, y) <= Onward(m, n);
      assert n !in Onward(m, y);
    }
  }

  /** No entry lies strictly between two neighbouring keys of a leaf. */
  lemma NoneBetween(r: Rec, e: map<Key, string>, i: int, k: Key)
    requires LeafOk(r) && LeafStores(r, e) && 0 <= i <= |r.keys|
    requires i > 0 ==> r.keys[i - 1] < k
    requires i < |r.keys| ==> k < r.keys[i]
    ensures !(k in e && Holds(r, k))
  {
    AbsentKey(r.keys, i, k);
  }

  /** pairs lists, in order, exactly the entries from start on that lie below hi. */
  ghost predicate Lists(pairs: seq<(Key, string)>, e: map<Key, string>, start: Key, hi: Bound) {
    && (forall i, j :: 0 <= i < j < |pairs| ==> pairs[i].0 < pairs[j].0)
    && (forall i :: 0 <= i < |pairs| ==>
          start <= pairs[i].0 && Below(pairs[i].0, hi) && pairs[i].0 in e && e[pairs[i].0] == pairs[i].1)
    && (forall k :: k in e && start <= k && Below(k, hi) ==> exists i :: 0 <= i < |pairs| && pairs[i].0 == k)
  }

  /** Where a scan stands before entry i of a leaf. */
  ghost function Frontier(r: Rec, i: int): Bound
    requires 0 <= i <= |r.keys|
  {
    if i < |r.keys| then At(r.keys[i]) else r.hi
  }

  lemma ListsStart(r: Rec, e: map<Key, string>, start: Key, i: int)
    requires LeafOk(r) && LeafStores(r, e) && Holds(r, start) && 0 <= i <= |r.keys|
    requires i > 0 ==> r.keys[i - 1] < start
    requires i < |r.keys| ==> start <= r.keys[i]
    ensures Lists([], e, start, Frontier(r, i))
  {
    forall k | k in e && start <= k && Below(k, Frontier(r, i))
      ensures false
    {
      assert i < |r.keys| ==> Below(r.keys[i], r.hi);
      NoneBetween(r, e, i, k);
    }
  }

  lemma ListsNext(pairs: seq<(Key, string)>, r: Rec, e: map<Key, string>, start: Key, i: int)
    requires LeafOk(r) && LeafStores(r, e) && 0 <= i < |r.keys| && start <= r.keys[i]
    requires Lists(pairs, e, start, At(r.keys[i]))
    ensures Lists(pairs + [(r.keys[i], r.values[i])], e, start, Frontier(r, i + 1))
  {
    var t := pairs + [(r.keys[i], r.values[i])];
    forall k | k in e && start <= k && Below(k, Frontier(r, i + 1))
      ensures exists j :: 0 <= j < |t| && t[j].0 == k
    {
      if k < r.keys[i] {
        var j :| 0 <= j < |pairs| && pairs[j].0 == k;
        assert t[j].0 == k;
      } else if k == r.keys[i] {
        assert t[|pairs|].0 == k;
      } else {
        assert Below(k, r.hi) by { assert i + 1 < |r.keys| ==> Below(r.keys[i + 1], r.hi); }
        NoneBetween(r, e, i + 1, k);
      }
    }
  }

  /** A scan that meets a key above end has listed everything up to end. */
  lemma ListsStop(pairs: seq<(Key, string)>, e: map<Key, string>, start: Key, end: Key, hi: Bound)
    requires Lists(pairs, e, start, hi) && (hi.At? ==> end < hi.key)
    requires forall i :: 0 <= i < |pairs| ==> pairs[i].0 <= end
    ensures forall k :: k in e && start <= k <= end ==> exists i :: 0 <= i < |pairs| && pairs[i].0 == k
  {
  }

  lemma ListsAcross(pairs: seq<(Key, string)>, e: map<Key, string>, start: Key, hi: Bound, hi': Bound)
    requires Lists(pairs, e, start, hi)
    requires forall k :: k in e && Below(k, hi') ==> Below(k, hi)
    requires forall k :: Below(k, hi) ==> Below(k, hi')
    ensures Lists(pairs, e, start, hi')
  {
  }
}
