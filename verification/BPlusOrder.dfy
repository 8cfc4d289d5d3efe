/** The leaf chain of the B+ tree is its leaves in order, and a sequence of operations
    leaves exactly the map that the same operations leave on a map. */
module BPlusOrder {
  import opened BPlusShape
  import opened BPlusTree

  /** The leaves below n, left to right. */
  ghost function Leaves(m: Mem, n: Node?): (ls: seq<Node?>)
    requires Inv(m) && n in m
    decreases m[n].height, |m[n].children| + 1
  {
    assert NodeOk(m, n);
    if m[n].isLeaf then [n] else LeavesUpTo(m, n, |m[n].children|)
  }

  ghost function LeavesUpTo(m: Mem, n: Node?, j: int): (ls: seq<Node?>)
    requires Inv(m) && n in m && !m[n].isLeaf && 0 <= j <= |m[n].children|
    decreases m[n].height, j
  {
    if j == 0 then [] else
      assert NodeOk(m, n);
      assert ChildOk(m, n, m[n], j - 1);
      LeavesUpTo(m, n, j - 1) + Leaves(m, m[n].children[j - 1])
  }

  /** ls is a stretch of the chain from lo to hi. */
  ghost predicate Stretch(m: Mem, ls: seq<Node?>, lo: Bound, hi: Bound) {
    && |ls| > 0
    && (forall i :: 0 <= i < |ls| ==> ls[i] in m && m[ls[i]].isLeaf)
    && m[ls[0]].lo == lo && m[ls[|ls| - 1]].hi == hi
    && (forall i :: 0 <= i < |ls| - 1 ==> m[ls[i]].next == ls[i + 1] && m[ls[i + 1]].prev == ls[i])
  }

  lemma {:induction false} LeavesStretch(m: Mem, n: Node?)
    requires Inv(m) && n in m
    ensures Stretch(m, Leaves(m, n), m[n].lo, m[n].hi)
    decreases m[n].height, |m[n].children| + 1
  {
    assert NodeOk(m, n);
    if !m[n].isLeaf { LeavesUpToStretch(m, n, |m[n].children|); }
  }

  lemma {:induction false} LeavesUpToStretch(m: Mem, n: Node?, j: int)
    requires Inv(m) && n in m && !m[n].isLeaf && 0 < j <= |m[n].children| && |m[n].children| == |m[n].keys| + 1
    ensures Stretch(m, LeavesUpTo(m, n, j), m[n].lo, ChildHi(m[n], j - 1))
    decreases m[n].height, j
  {
    assert NodeOk(m, n);
    assert ChildOk(m, n, m[n], j - 1);
    var c := m[n].children[j - 1];
    LeavesStretch(m, c);
    if j > 1 {
      LeavesUpToStretch(m, n, j - 1);
      Join(m, LeavesUpTo(m, n, j - 1), Leaves(m, c), m[n].lo, m[n].keys[j - 2], m[c].hi);
    } else {
      assert LeavesUpTo(m, n, 1) == Leaves(m, c);
    }
  }

  /** Two stretches that meet at a key are linked there. */
  lemma Join(m: Mem, a: seq<Node?>, b: seq<Node?>, lo: Bound, k: Key, hi: Bound)
    requires Inv(m) && Stretch(m, a, lo, At(k)) && Stretch(m, b, At(k), hi)
    ensures Stretch(m, a + b, lo, hi)
  {
    var x, y := a[|a| - 1], b[0];
    assert NodeOk(m, x) && NodeOk(m, y);
    var z := m[x].next;
    assert NodeOk(m, z);
    Disjoint(m, z, y, k);
    assert forall i :: 0 <= i < |b| ==> (a + b)[|a| + i] == b[i];
  }

  lemma {:induction false} LeavesOfChild(m: Mem, n: Node?, i: int, j: int)
    requires Inv(m) && n in m && !m[n].isLeaf && 0 <= i < j <= |m[n].children| && m[n].children[i] in m
    ensures forall x :: x in Leaves(m, m[n].children[i]) ==> x in LeavesUpTo(m, n, j)
    decreases j
  {
    if i < j - 1 { LeavesOfChild(m, n, i, j - 1); }
  }

  /** Every leaf is among the leaves of the whole tree. */
  lemma {:induction false} LeavesComplete(m: Mem, n: Node?, x: Node?)
    requires Inv(m) && n in m && x in Leaves(m, n)
    ensures x in Leaves(m, null)
    decreases m[null].height - m[n].height
  {
    if n != null {
      assert NodeOk(m, n);
      var i := Position(m, n);
      var p := m[n].parent;
      LeavesOfChild(m, p, i, |m[p].children|);
      if p != null { assert NodeOk(m, p); }
      LeavesComplete(m, p, x);
    }
  }

  /** The chain, read from its first leaf, is the tree's leaves from left to right, all of them. */
  lemma ChainIsInOrder(m: Mem)
    requires Inv(m)
    ensures var ls := Leaves(m, null);
      && Stretch(m, ls, Inf, Inf)
      && m[ls[0]].prev == null && m[ls[|ls| - 1]].next == null
      && (forall n :: n in m && m[n].isLeaf ==> n in ls)
  {
    var ls := Leaves(m, null);
    LeavesStretch(m, null);
    assert NodeOk(m, ls[0]) && NodeOk(m, ls[|ls| - 1]);
    forall n | n in m && m[n].isLeaf ensures n in ls {
      LeavesComplete(m, n, n);
    }
  }

  // Whole runs.

  datatype Op = Put(key: Key, value: string) | Remove(key: Key)

  function Apply(e: map<Key, string>, op: Op): map<Key, string> {
    match op
    case Put(k, v) => e[k := v]
    case Remove(k) => e - {k}
  }

  function Fold(ops: seq<Op>): map<Key, string> {
    if ops == [] then map[] else Apply(Fold(ops[..|ops| - 1]), ops[|ops| - 1])
  }

  /** Any sequence of operations on a new tree leaves a well-formed tree with exactly the
      entries a plain map would have. */
  method Replay(max: int, ops: seq<Op>) returns (t: Tree)
    ensures t.Valid() && t.entries == Fold(ops) && t.count == |Fold(ops)|
  {
    t := new Tree(max);
    for i := 0 to |ops|
      invariant t.Valid() && t.entries == Fold(ops[..i])
      invariant fresh(t) && fresh(t.mem.Keys - {null})
    {
      assert ops[..i + 1][..i] == ops[..i];
      match ops[i]
      case Put(k, v) => t.Insert(k, v);
      case Remove(k) => var deleted := t.Delete(k);
    }
    assert ops[..|ops|] == ops;
  }
}
