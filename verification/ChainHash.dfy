/** The consistent-hash ring of internal/chainhash: which nodes a key prefers, in which order,
    and what adding or removing a node does to that. */
module ChainHash {

  type NodeID = string

  predicate Ascending(ring: seq<nat>) { forall i, j :: 0 <= i < j < |ring| ==> ring[i] < ring[j] }

  predicate Sorted(ring: seq<nat>) { forall i, j :: 0 <= i < j < |ring| ==> ring[i] <= ring[j] }

  // --------------------------------------------------------------- preference orders

  /** How many ring positions lie before the hash. */
  function Start(ring: seq<nat>, h: nat): (n: nat)
    ensures n <= |ring|
  {
    if ring == [] || ring[0] >= h then 0 else 1 + Start(ring[1..], h)
  }

  lemma {:induction false} StartIs(ring: seq<nat>, h: nat)
    requires Sorted(ring)
    ensures forall i :: 0 <= i < |ring| ==> (i < Start(ring, h) <==> ring[i] < h)
    decreases |ring|
  {
    if ring != [] && ring[0] < h {
      var rest := ring[1..];
      StartIs(rest, h);
      assert forall i :: 1 <= i < |ring| ==> ring[i] == rest[i - 1];
    }
  }

  /** The ring read clockwise from the hash. */
  function Clockwise(ring: seq<nat>, h: nat): seq<nat> { ring[Start(ring, h)..] + ring[..Start(ring, h)] }

  function Owners(walk: seq<nat>, owner: map<nat, NodeID>): (r: seq<NodeID>)
    requires forall i :: 0 <= i < |walk| ==> walk[i] in owner
    ensures |r| == |walk| && forall i :: 0 <= i < |r| ==> r[i] == owner[walk[i]]
  {
    seq(|walk|, i requires 0 <= i < |walk| => owner[walk[i]])
  }

  /** Each node once, where it comes first. */
  function FirstOnly(ids: seq<NodeID>): seq<NodeID> {
    if ids == [] then []
    else
      var r, last := FirstOnly(ids[..|ids| - 1]), ids[|ids| - 1];
      if last in r then r else r + [last]
  }

  /** All nodes in the order a key prefers them. */
  ghost function Preference(ring: seq<nat>, owner: map<nat, NodeID>, h: nat): seq<NodeID>
    requires forall i :: 0 <= i < |ring| ==> ring[i] in owner
  {
    FirstOnly(Owners(Clockwise(ring, h), owner))
  }

  ghost predicate Different(ids: seq<NodeID>) { forall i, j :: 0 <= i < j < |ids| ==> ids[i] != ids[j] }

  lemma {:induction false} FirstOnlyIs(ids: seq<NodeID>)
    ensures Different(FirstOnly(ids)) && (forall x :: x in FirstOnly(ids) <==> x in ids)
    ensures ids != [] ==> FirstOnly(ids) != [] && FirstOnly(ids)[0] == ids[0]
    decreases |ids|
  {
    if ids != [] {
      var init, last := ids[..|ids| - 1], ids[|ids| - 1];
      FirstOnlyIs(init);
      assert forall x :: x in ids <==> x in init || x == last;
    }
  }

  // ---------------------------------------------------------------- the clockwise order

  /** Going up from the hash, and round to the least position, p comes before q. */
  predicate Sooner(h: nat, p: nat, q: nat) { if h <= p then q < h || p < q else q < h && p < q }

  const HASHES: nat := 0x1_0000_0000_0000_0000

  /** With hashes of 64 bits, that is the order of the distances. */
  lemma SoonerIsNearer(h: nat, p: nat, q: nat)
    requires h < HASHES && p < HASHES && q < HASHES
    ensures Sooner(h, p, q) <==> (p - h) % HASHES < (q - h) % HASHES
  {
    assert (p - h) % HASHES == if h <= p then p - h else p - h + HASHES;
    assert (q - h) % HASHES == if h <= q then q - h else q - h + HASHES;
  }

  /** The least position that is not before the hash, or the least of all if there is none. */
  ghost predicate Successor(owner: map<nat, NodeID>, h: nat, p: nat) {
    && p in owner
    && if exists q :: q in owner && h <= q then h <= p && forall q :: q in owner && h <= q ==> p <= q
       else forall q :: q in owner ==> p <= q
  }

  /** The nodes that own a position. */
  function Standing(owner: map<nat, NodeID>): set<NodeID> { set p | p in owner :: owner[p] }

  /** Some position of a comes before every position of b. */
  ghost predicate Precedes(owner: map<nat, NodeID>, h: nat, a: NodeID, b: NodeID) {
    exists p :: p in owner && owner[p] == a && forall q :: q in owner && owner[q] == b ==> Sooner(h, p, q)
  }

  /** Some place of x comes before every place of y. */
  ghost predicate Earlier(ids: seq<NodeID>, x: NodeID, y: NodeID) {
    exists a :: 0 <= a < |ids| && ids[a] == x && forall b :: 0 <= b < |ids| && ids[b] == y ==> a < b
  }

  lemma EarlierStays(ids: seq<NodeID>, last: NodeID, x: NodeID, y: NodeID)
    requires Earlier(ids, x, y)
    ensures Earlier(ids + [last], x, y)
  {
    var a :| 0 <= a < |ids| && ids[a] == x && forall b :: 0 <= b < |ids| && ids[b] == y ==> a < b;
    assert (ids + [last])[a] == x;
  }

  lemma EarlierThanNew(ids: seq<NodeID>, last: NodeID, x: NodeID)
    requires x in ids && last !in ids
    ensures Earlier(ids + [last], x, last)
  {
    var a :| 0 <= a < |ids| && ids[a] == x;
    assert (ids + [last])[a] == x;
  }

  lemma {:induction false} FirstOnlyOrder(ids: seq<NodeID>)
    ensures forall i, j :: 0 <= i < j < |FirstOnly(ids)| ==> Earlier(ids, FirstOnly(ids)[i], FirstOnly(ids)[j])
    decreases |ids|
  {
    hide Earlier;
    if ids != [] {
      var init, last := ids[..|ids| - 1], ids[|ids| - 1];
      FirstOnlyOrder(init);
      FirstOnlyIs(init);
      var f := FirstOnly(init);
      assert ids == init + [last];
      forall i, j | 0 <= i < j < |FirstOnly(ids)| ensures Earlier(ids, FirstOnly(ids)[i], FirstOnly(ids)[j]) {
        if j < |f| { EarlierStays(init, last, f[i], f[j]); } else { assert f[i] in f; EarlierThanNew(init, last, f[i]); }
      }
    }
  }

  /** The walk meets positions in clockwise order. */
  lemma WalkOrder(ring: seq<nat>, h: nat, a: int, b: int)
    requires Sorted(ring) && 0 <= a < b < |ring|
    ensures var walk := Clockwise(ring, h); walk[a] == walk[b] || Sooner(h, walk[a], walk[b])
  {
    StartIs(ring, h);
  }

  lemma InWalk(ring: seq<nat>, owner: map<nat, NodeID>, h: nat, q: nat) returns (b: int)
    requires Rings(ring, owner) && q in owner
    ensures 0 <= b < |ring| && |Clockwise(ring, h)| == |ring| && Clockwise(ring, h)[b] == q
  {
    var i :| 0 <= i < |ring| && ring[i] == q;
    var n := Start(ring, h);
    b := if i < n then |ring| - n + i else i - n;
  }

  lemma WalkPrecedes(ring: seq<nat>, owner: map<nat, NodeID>, h: nat, x: NodeID, y: NodeID)
    requires Rings(ring, owner) && x != y && Earlier(Owners(Clockwise(ring, h), owner), x, y)
    ensures Precedes(owner, h, x, y)
  {
    hide Start, Sooner, Sorted;
    var walk := Clockwise(ring, h);
    var all := Owners(walk, owner);
    var a :| 0 <= a < |all| && all[a] == x && forall b :: 0 <= b < |all| && all[b] == y ==> a < b;
    forall q | q in owner && owner[q] == y ensures Sooner(h, walk[a], q) {
      var b := InWalk(ring, owner, h, q);
      assert all[b] == y;
      WalkOrder(ring, h, a, b);
    }
  }

  /** A key prefers the nodes in the order of their positions, clockwise from its hash. */
  lemma PreferenceOrder(ring: seq<nat>, owner: map<nat, NodeID>, h: nat)
    requires Rings(ring, owner)
    ensures var order := Preference(ring, owner, h);
      forall i, j :: 0 <= i < j < |order| ==> Precedes(owner, h, order[i], order[j])
  {
    hide Earlier, Precedes, Start;
    var all := Owners(Clockwise(ring, h), owner);
    FirstOnlyOrder(all);
    FirstOnlyIs(all);
    var order := FirstOnly(all);
    forall i, j | 0 <= i < j < |order| ensures Precedes(owner, h, order[i], order[j]) {
      WalkPrecedes(ring, owner, h, order[i], order[j]);
    }
  }

  // ------------------------------------------------------------------ striking a node

  function Without(ids: seq<NodeID>, x: NodeID): seq<NodeID> {
    if ids == [] then []
    else Without(ids[..|ids| - 1], x) + (if ids[|ids| - 1] == x then [] else [ids[|ids| - 1]])
  }

  lemma {:induction false} WithoutHas(ids: seq<NodeID>, x: NodeID)
    ensures forall y :: y in Without(ids, x) <==> y in ids && y != x
    decreases |ids|
  {
    if ids != [] {
      var init, last := ids[..|ids| - 1], ids[|ids| - 1];
      WithoutHas(init, x);
      assert forall y :: y in ids <==> y in init || y == last;
    }
  }

  /** Striking a node and keeping first occurrences may be done in either order. */
  lemma {:induction false} StrikeFirstOnly(ids: seq<NodeID>, x: NodeID)
    ensures FirstOnly(Without(ids, x)) == Without(FirstOnly(ids), x)
    decreases |ids|
  {
    if ids != [] {
      var init, last := ids[..|ids| - 1], ids[|ids| - 1];
      StrikeFirstOnly(init, x);
      var f := FirstOnly(init);
      FirstOnlyIs(init);
      WithoutHas(f, x);
      WithoutLast(f, last, x);
      var w := Without(init, x);
      if last == x {
        assert Without(ids, x) == w;
      } else {
        assert Without(ids, x) == w + [last];
        FirstOnlyLast(w, last);
      }
    }
  }

  lemma WithoutLast(ids: seq<NodeID>, last: NodeID, x: NodeID)
    ensures Without(ids + [last], x) == if last == x then Without(ids, x) else Without(ids, x) + [last]
  {
    assert (ids + [last])[..|ids|] == ids;
  }

  lemma FirstOnlyLast(ids: seq<NodeID>, last: NodeID)
    ensures FirstOnly(ids + [last]) == if last in FirstOnly(ids) then FirstOnly(ids) else FirstOnly(ids) + [last]
  {
    assert (ids + [last])[..|ids|] == ids;
  }

  /** The ring positions that are left. */
  function Kept(ring: seq<nat>, owner: map<nat, NodeID>, x: NodeID): seq<nat>
    requires forall i :: 0 <= i < |ring| ==> ring[i] in owner
  {
    if ring == [] then []
    else
      var last := ring[|ring| - 1];
      Kept(ring[..|ring| - 1], owner, x) + (if owner[last] == x then [] else [last])
  }

  lemma {:induction false} KeptJoin(a: seq<nat>, b: seq<nat>, owner: map<nat, NodeID>, x: NodeID)
    requires forall i :: 0 <= i < |a| ==> a[i] in owner
    requires forall i :: 0 <= i < |b| ==> b[i] in owner
    ensures Kept(a + b, owner, x) == Kept(a, owner, x) + Kept(b, owner, x)
    decreases |b|
  {
    if b == [] {
      assert a + b == a;
    } else {
      var init := b[..|b| - 1];
      KeptJoin(a, init, owner, x);
      assert (a + b)[..|a + b| - 1] == a + init;
    }
  }

  lemma {:induction false} KeptIs(ring: seq<nat>, owner: map<nat, NodeID>, x: NodeID)
    requires (forall i :: 0 <= i < |ring| ==> ring[i] in owner) && Ascending(ring)
    ensures Ascending(Kept(ring, owner, x))
    ensures forall h :: h in Kept(ring, owner, x) <==> h in ring && owner[h] != x
    decreases |ring|
  {
    if ring != [] {
      var init, last := ring[..|ring| - 1], ring[|ring| - 1];
      KeptIs(init, owner, x);
      assert forall h :: h in ring <==> h in init || h == last;
      var k := Kept(init, owner, x);
      forall i | 0 <= i < |k| ensures k[i] < last {
        assert k[i] in k;
        var j :| 0 <= j < |init| && init[j] == k[i];
      }
    }
  }

  lemma {:induction false} KeptOwners(walk: seq<nat>, owner: map<nat, NodeID>, owner': map<nat, NodeID>, x: NodeID)
    requires forall i :: 0 <= i < |walk| ==> walk[i] in owner
    requires forall h :: h in owner && owner[h] != x ==> h in owner' && owner'[h] == owner[h]
    ensures forall i :: 0 <= i < |Kept(walk, owner, x)| ==> Kept(walk, owner, x)[i] in owner'
    ensures Owners(Kept(walk, owner, x), owner') == Without(Owners(walk, owner), x)
    decreases |walk|
  {
    if walk != [] {
      var init := walk[..|walk| - 1];
      KeptOwners(init, owner, owner', x);
      assert Owners(walk, owner)[..|walk| - 1] == Owners(init, owner);
    }
  }

  lemma LastIsGreatest(ring: seq<nat>, p: nat)
    requires Ascending(ring) && p in ring
    ensures p <= ring[|ring| - 1]
  {
    var i :| 0 <= i < |ring| && ring[i] == p;
  }

  lemma DropLast(ring: seq<nat>)
    requires Ascending(ring) && ring != []
    ensures var last := ring[|ring| - 1]; Ascending(ring[..|ring| - 1]) && forall h :: h in ring[..|ring| - 1] <==> h in ring && h != last
  {
    var init, last := ring[..|ring| - 1], ring[|ring| - 1];
    assert ring == init + [last];
  }

  /** Two ascending rings of the same positions are the same. */
  lemma {:induction false} RingUnique(a: seq<nat>, b: seq<nat>)
    requires Ascending(a) && Ascending(b) && forall h :: h in a <==> h in b
    ensures a == b
    decreases |a|
  {
    assert |a| > 0 ==> a[|a| - 1] in a && a[|a| - 1] in b;
    assert |b| > 0 ==> b[|b| - 1] in b && b[|b| - 1] in a;
    if a != [] {
      LastIsGreatest(b, a[|a| - 1]);
      LastIsGreatest(a, b[|b| - 1]);
      DropLast(a);
      DropLast(b);
      var a', b' := a[..|a| - 1], b[..|b| - 1];
      forall h: nat ensures h in a' <==> h in b' {
        assert h in a <==> h in b;
      }
      RingUnique(a', b');
      assert a == a[..|a| - 1] + [a[|a| - 1]] && b == b[..|b| - 1] + [b[|b| - 1]];
    }
  }

  lemma KeptBefore(ring: seq<nat>, owner: map<nat, NodeID>, x: NodeID, h: nat)
    requires (forall i :: 0 <= i < |ring| ==> ring[i] in owner) && Ascending(ring)
    ensures var n := Start(ring, h); Start(Kept(ring, owner, x), h) == |Kept(ring[..n], owner, x)|
  {
    hide Kept, Start;
    var n := Start(ring, h);
    var a, b := ring[..n], ring[n..];
    assert ring == a + b;
    forall i | 0 <= i < |b| ensures b[i] in owner { assert b[i] == ring[n + i]; }
    var ka, kb, k := Kept(a, owner, x), Kept(b, owner, x), Kept(ring, owner, x);
    KeptJoin(a, b, owner, x);
    KeptIs(a, owner, x);
    KeptIs(b, owner, x);
    KeptIs(ring, owner, x);
    StartIs(ring, h);
    forall i | 0 <= i < |ka| ensures ka[i] < h { assert ka[i] in ka && ka[i] in a; }
    forall i | 0 <= i < |kb| ensures kb[i] >= h { assert kb[i] in kb && kb[i] in b; }
    assert forall i :: 0 <= i < |k| ==> (i < |ka| <==> k[i] < h);
    SameCount(k, h, |ka|);
  }

  /** Splitting at a hash and keeping positions may be done in either order. */
  lemma KeptStart(ring: seq<nat>, owner: map<nat, NodeID>, x: NodeID, h: nat)
    requires (forall i :: 0 <= i < |ring| ==> ring[i] in owner) && Ascending(ring)
    ensures Clockwise(Kept(ring, owner, x), h) == Kept(Clockwise(ring, h), owner, x)
  {
    hide Kept, Start;
    var n := Start(ring, h);
    var a, b := ring[..n], ring[n..];
    assert ring == a + b;
    KeptJoin(a, b, owner, x);
    KeptJoin(b, a, owner, x);
    KeptBefore(ring, owner, x, h);
  }

  lemma SameCount(k: seq<nat>, h: nat, n: nat)
    requires Sorted(k) && n <= |k| && forall i :: 0 <= i < |k| ==> (i < n <==> k[i] < h)
    ensures Start(k, h) == n
  {
    StartIs(k, h);
    var s := Start(k, h);
    assert (s < |k| ==> k[s] >= h) && (s > 0 ==> k[s - 1] < h);
    assert (n < |k| ==> k[n] >= h) && (n > 0 ==> k[n - 1] < h);
  }

  lemma StrictStrikes(ring: seq<nat>, owner: map<nat, NodeID>, ring': seq<nat>, owner': map<nat, NodeID>, x: NodeID, h: nat)
    requires Strict(ring, owner) && Strict(ring', owner') && owner' == Struck(owner, x)
    ensures Preference(ring', owner', h) == Without(Preference(ring, owner, h), x)
  {
    hide FirstOnly, Start, Kept, Without;
    KeptIs(ring, owner, x);
    RingUnique(ring', Kept(ring, owner, x));
    KeptStart(ring, owner, x, h);
    KeptOwners(Clockwise(ring, h), owner, owner', x);
    StrikeFirstOnly(Owners(Clockwise(ring, h), owner), x);
  }

  ghost predicate Strict(ring: seq<nat>, owner: map<nat, NodeID>) {
    Ascending(ring) && (forall p {:trigger p in ring} {:trigger p in owner} :: p in ring <==> p in owner)
  }

  /** The ring lists the owned positions in order; after a collision it lists one twice. */
  ghost predicate Rings(ring: seq<nat>, owner: map<nat, NodeID>) {
    Sorted(ring) && (forall p {:trigger p in ring} {:trigger p in owner} :: p in ring <==> p in owner)
  }

  /** The positions that are not the node's. */
  function Struck(owner: map<nat, NodeID>, x: NodeID): map<nat, NodeID> { map p | p in owner && owner[p] != x :: owner[p] }

  // ------------------------------------------------------------------- repeated positions

  /** Neighbours that are equal count once. */
  function Squeeze(s: seq<nat>): seq<nat> {
    if |s| <= 1 then s
    else Squeeze(s[..|s| - 1]) + (if s[|s| - 1] == s[|s| - 2] then [] else [s[|s| - 1]])
  }

  lemma {:induction false} SqueezeIs(s: seq<nat>)
    ensures forall p :: p in Squeeze(s) <==> p in s
    ensures s != [] ==> Squeeze(s) != [] && Squeeze(s)[|Squeeze(s)| - 1] == s[|s| - 1]
    decreases |s|
  {
    if |s| > 1 {
      var init, last := s[..|s| - 1], s[|s| - 1];
      SqueezeIs(init);
      assert forall p :: p in s <==> p in init || p == last;
    }
  }

  lemma {:induction false} SqueezeAscends(s: seq<nat>)
    requires Sorted(s)
    ensures Ascending(Squeeze(s))
    decreases |s|
  {
    if |s| > 1 {
      var init, last := s[..|s| - 1], s[|s| - 1];
      SqueezeAscends(init);
      SqueezeIs(init);
      var t := Squeeze(init);
      forall i | 0 <= i < |t| ensures t[i] <= init[|init| - 1] { assert t[i] in t && t[i] in init; }
    }
  }

  lemma {:induction false} SqueezeJoin(a: seq<nat>, b: seq<nat>)
    requires a == [] || b == [] || a[|a| - 1] != b[0]
    ensures Squeeze(a + b) == Squeeze(a) + Squeeze(b)
    decreases |b|
  {
    if b == [] {
      assert a + b == a;
    } else if a == [] {
      assert a + b == b;
    } else {
      var init, all := b[..|b| - 1], a + b;
      assert all[..|all| - 1] == a + init;
      SqueezeJoin(a, init);
    }
  }

  /** Who comes first does not depend on repeats. */
  lemma {:induction false} SqueezeFirstOnly(walk: seq<nat>, owner: map<nat, NodeID>)
    requires forall p :: p in walk ==> p in owner
    ensures forall p :: p in Squeeze(walk) ==> p in owner
    ensures FirstOnly(Owners(Squeeze(walk), owner)) == FirstOnly(Owners(walk, owner))
    decreases |walk|
  {
    hide FirstOnly;
    SqueezeIs(walk);
    if |walk| > 1 {
      var n := |walk| - 1;
      var init, last := walk[..n], walk[n];
      SqueezeIs(init);
      SqueezeFirstOnly(init, owner);
      var all, short := Owners(init, owner), Owners(Squeeze(init), owner);
      assert Owners(walk, owner) == all + [owner[last]];
      FirstOnlyLast(all, owner[last]);
      FirstOnlyIs(all);
      if last == walk[n - 1] {
        assert all[n - 1] == owner[last] && all[n - 1] in all;
        assert Squeeze(walk) == Squeeze(init);
      } else {
        assert Owners(Squeeze(walk), owner) == short + [owner[last]];
        FirstOnlyLast(short, owner[last]);
      }
    }
  }

  predicate AllBefore(s: seq<nat>, h: nat) { forall i :: 0 <= i < |s| ==> s[i] < h }

  predicate AllFrom(s: seq<nat>, h: nat) { forall i :: 0 <= i < |s| ==> s[i] >= h }

  lemma StartSplits(ring: seq<nat>, h: nat)
    requires Sorted(ring)
    ensures AllBefore(ring[..Start(ring, h)], h) && AllFrom(ring[Start(ring, h)..], h)
  {
    hide Start;
    StartIs(ring, h);
  }

  lemma SqueezeStart(ring: seq<nat>, h: nat)
    requires Sorted(ring)
    ensures var n := Start(ring, h);
      Squeeze(ring) == Squeeze(ring[..n]) + Squeeze(ring[n..]) && Start(Squeeze(ring), h) == |Squeeze(ring[..n])|
  {
    hide Start, Squeeze, Ascending;
    StartSplits(ring, h);
    var n := Start(ring, h);
    var a, b := ring[..n], ring[n..];
    assert ring == a + b;
    SqueezeJoin(a, b);
    SqueezeSide(a, h);
    SqueezeSide(b, h);
    SqueezeAscends(ring);
    CountJoined(Squeeze(a), Squeeze(b), h);
  }

  lemma CountJoined(a: seq<nat>, b: seq<nat>, h: nat)
    requires Ascending(a + b) && AllBefore(a, h) && AllFrom(b, h)
    ensures Start(a + b, h) == |a|
  {
    hide Start;
    SameCount(a + b, h, |a|);
  }

  /** All before the hash, or all not before it, stay so. */
  lemma SqueezeSide(s: seq<nat>, h: nat)
    ensures AllBefore(s, h) ==> AllBefore(Squeeze(s), h)
    ensures AllFrom(s, h) ==> AllFrom(Squeeze(s), h)
  {
    hide Squeeze;
    SqueezeIs(s);
    var t := Squeeze(s);
    forall i | 0 <= i < |t| ensures exists j :: 0 <= j < |s| && s[j] == t[i] { assert t[i] in t && t[i] in s; }
  }

  lemma SqueezeClockwise(ring: seq<nat>, h: nat)
    requires Sorted(ring)
    ensures Clockwise(Squeeze(ring), h) == Squeeze(Clockwise(ring, h))
  {
    hide Start, Squeeze;
    StartIs(ring, h);
    SqueezeStart(ring, h);
    var n := Start(ring, h);
    SqueezeJoin(ring[n..], ring[..n]);
  }

  /** A ring with repeats gives the same orders as the ring without. */
  lemma SqueezePreference(ring: seq<nat>, owner: map<nat, NodeID>, h: nat)
    requires Rings(ring, owner)
    ensures Strict(Squeeze(ring), owner) && Preference(Squeeze(ring), owner, h) == Preference(ring, owner, h)
  {
    hide Start, Squeeze, FirstOnly;
    SqueezeIs(ring);
    SqueezeAscends(ring);
    SqueezeClockwise(ring, h);
    var n := Start(ring, h);
    assert ring == ring[..n] + ring[n..];
    assert forall p :: p in Clockwise(ring, h) ==> p in ring;
    SqueezeFirstOnly(Clockwise(ring, h), owner);
  }

  /** The ring after a node's positions are gone: every key's order loses that node and is
      otherwise as it was.  Read the other way round, this is what adding a node does. */
  lemma RemovalStrikes(ring: seq<nat>, owner: map<nat, NodeID>, ring': seq<nat>, owner': map<nat, NodeID>, x: NodeID, h: nat)
    requires Rings(ring, owner) && Rings(ring', owner') && owner' == Struck(owner, x)
    ensures Preference(ring', owner', h) == Without(Preference(ring, owner, h), x)
  {
    SqueezePreference(ring, owner, h);
    SqueezePreference(ring', owner', h);
    StrictStrikes(Squeeze(ring), owner, Squeeze(ring'), owner', x, h);
  }

  /** Only keys that a removed node owned move. */
  lemma OnlyItsKeysMove(ring: seq<nat>, owner: map<nat, NodeID>, ring': seq<nat>, owner': map<nat, NodeID>, x: NodeID, h: nat)
    requires Rings(ring, owner) && Rings(ring', owner') && ring != [] && owner' == Struck(owner, x)
    ensures Preference(ring, owner, h) != []
    ensures Preference(ring, owner, h)[0] != x ==>
              Preference(ring', owner', h) != [] && Preference(ring', owner', h)[0] == Preference(ring, owner, h)[0]
  {
    RemovalStrikes(ring, owner, ring', owner', x, h);
    FirstOnlyIs(Owners(Clockwise(ring, h), owner));
    var p := Preference(ring, owner, h);
    if p[0] != x { KeepsFirst(p, x); }
  }

  lemma {:induction false} KeepsFirst(ids: seq<NodeID>, x: NodeID)
    requires ids != [] && ids[0] != x
    ensures Without(ids, x) != [] && Without(ids, x)[0] == ids[0]
    decreases |ids|
  {
    if |ids| > 1 { KeepsFirst(ids[..|ids| - 1], x); } else { assert ids[..0] == []; }
  }

  // ---------------------------------------------------------------------- the ring

  datatype Error = NoError | EmptyNodeID | InvalidWeight | NodeAlreadyExists | NodeNotFound | EmptyRing

  /** Position i of a node, and the hash of a key. */
  type PositionHash = (NodeID, nat) -> nat

  ghost predicate Placed(nodes: map<NodeID, nat>, v: nat, id: NodeID, i: nat) { id in nodes && i < v * nodes[id] }

  /** No two virtual nodes of the ring hash to one position. */
  ghost predicate NoCollisions(at: PositionHash, v: nat, nodes: map<NodeID, nat>) {
    forall id, i, id', i' {:trigger at(id, i), at(id', i')} ::
      Placed(nodes, v, id, i) && Placed(nodes, v, id', i') && at(id, i) == at(id', i') ==> id == id' && i == i'
  }

  /** The positions of a node's first n virtual nodes. */
  function Spots(at: PositionHash, id: NodeID, n: nat): set<nat> { set i | 0 <= i < n :: at(id, i) }

  ghost predicate HasSpot(at: PositionHash, v: nat, nodes: map<NodeID, nat>, id: NodeID, p: nat) {
    id in nodes && p in Spots(at, id, v * nodes[id])
  }

  /** A position is owned by one of the nodes that hash to it. */
  ghost predicate Rooted(at: PositionHash, v: nat, nodes: map<NodeID, nat>, owner: map<nat, NodeID>) {
    forall p {:trigger owner[p]} :: p in owner ==> HasSpot(at, v, nodes, owner[p], p)
  }

  /** Besides, every virtual node of every node owns its position. */
  ghost predicate Owned(at: PositionHash, v: nat, nodes: map<NodeID, nat>, owner: map<nat, NodeID>) {
    && Rooted(at, v, nodes, owner)
    && (forall id, p {:trigger HasSpot(at, v, nodes, id, p)} :: HasSpot(at, v, nodes, id, p) ==> p in owner && owner[p] == id)
  }

  lemma SpotsApart(at: PositionHash, v: nat, nodes: map<NodeID, nat>, id: NodeID, id': NodeID, p: nat)
    requires NoCollisions(at, v, nodes) && HasSpot(at, v, nodes, id, p) && HasSpot(at, v, nodes, id', p)
    ensures id == id'
  {
    var i :| 0 <= i < v * nodes[id] && at(id, i) == p;
    var j :| 0 <= j < v * nodes[id'] && at(id', j) == p;
    assert Placed(nodes, v, id, i) && Placed(nodes, v, id', j);
  }

  method InsertSorted(ring: seq<nat>, p: nat) returns (r: seq<nat>)
    requires Sorted(ring)
    ensures Sorted(r) && multiset(r) == multiset(ring) + multiset{p}
  {
    var i := 0;
    while i < |ring| && ring[i] < p
      invariant 0 <= i <= |ring| && forall j :: 0 <= j < i ==> ring[j] < p
    {
      i := i + 1;
    }
    r := ring[..i] + [p] + ring[i..];
    assert ring == ring[..i] + ring[i..];
    hide Sorted;
    PutSorted(ring, i, p);
  }

  lemma PutSorted(ring: seq<nat>, i: int, p: nat)
    requires Sorted(ring) && 0 <= i <= |ring| && (forall j :: 0 <= j < i ==> ring[j] < p) && (i < |ring| ==> p <= ring[i])
    ensures Sorted(ring[..i] + [p] + ring[i..])
  {
  }

  /** sort.Slice: the positions in order. */
  method SortPositions(positions: seq<nat>) returns (ring: seq<nat>)
    ensures Sorted(ring) && multiset(ring) == multiset(positions)
    ensures forall p :: p in ring <==> p in positions
  {
    ring := [];
    for i := 0 to |positions|
      invariant Sorted(ring) && multiset(ring) == multiset(positions[..i])
    {
      ring := InsertSorted(ring, positions[i]);
      assert positions[..i + 1] == positions[..i] + [positions[i]];
    }
    assert positions[..|positions|] == positions;
    forall p ensures p in ring <==> p in positions { assert p in multiset(ring) <==> p in multiset(positions); }
  }

  /** rebuildRing's walk over the map, in any order. */
  method KeysInSomeOrder(owner: map<nat, NodeID>) returns (keys: seq<nat>)
    ensures forall p :: p in keys <==> p in owner
  {
    keys := [];
    var rest := owner.Keys;
    while rest != {}
      invariant rest <= owner.Keys && forall p :: p in keys <==> p in owner && p !in rest
    {
      var p :| p in rest;
      keys, rest := keys + [p], rest - {p};
    }
  }

  class HashRing {
    const virtualNodes: nat
    const at: PositionHash
    const hashKey: string -> nat
    var nodes: map<NodeID, nat>
    var vnodeMap: map<nat, NodeID>
    var ring: seq<nat>

    ghost predicate Valid()
      reads this
    {
      && virtualNodes > 0 && (forall id :: id in nodes ==> nodes[id] > 0)
      && Rooted(at, virtualNodes, nodes, vnodeMap) && Rings(ring, vnodeMap)
    }

    /** No collision so far: every virtual node owns its position. */
    ghost predicate Clean()
      reads this
    {
      NoCollisions(at, virtualNodes, nodes) && Owned(at, virtualNodes, nodes, vnodeMap)
    }

    constructor (virtualNodes: nat, at: PositionHash, hashKey: string -> nat)
      requires virtualNodes > 0
      ensures Valid() && Clean() && nodes == map[] && this.at == at && this.virtualNodes == virtualNodes && this.hashKey == hashKey
    {
      this.virtualNodes, this.at, this.hashKey := virtualNodes, at, hashKey;
      nodes, vnodeMap, ring := map[], map[], [];
    }

    /** Taking the node's positions away again gives the old ring exactly when none of them was
        somebody else's; without collisions every virtual node keeps its own. */
    method AddNode(id: NodeID, weight: int) returns (err: Error)
      requires Valid()
      modifies this
      ensures Valid()
      ensures err == (if id == "" then EmptyNodeID else if weight <= 0 then InvalidWeight
                      else if id in old(nodes) then NodeAlreadyExists else NoError)
      ensures nodes == if err == NoError then old(nodes)[id := weight] else old(nodes)
      ensures err != NoError ==> vnodeMap == old(vnodeMap) && ring == old(ring)
      ensures err == NoError ==>
        && vnodeMap == old(vnodeMap) + Granted(Spots(at, id, virtualNodes * weight), id)
        && (forall i :: 0 <= i < virtualNodes * weight ==> at(id, i) in vnodeMap && vnodeMap[at(id, i)] == id)
        && (old(vnodeMap) == Struck(vnodeMap, id) <==> old(vnodeMap).Keys !! Spots(at, id, virtualNodes * weight))
        && (old(Clean()) && NoCollisions(at, virtualNodes, nodes) ==> Clean() && old(vnodeMap) == Struck(vnodeMap, id))
    {
      hide NoCollisions, Spots, Rooted, Owned, Struck, Granted, Rings;
      if id == "" { return EmptyNodeID; }
      if weight <= 0 { return InvalidWeight; }
      if id in nodes { return NodeAlreadyExists; }
      GrantRoots(vnodeMap, id, weight, at, virtualNodes, nodes);
      GrantsAll(vnodeMap, id, virtualNodes * weight, at);
      if NoCollisions(at, virtualNodes, nodes[id := weight]) && Clean() { Claimed(vnodeMap, id, weight, at, virtualNodes, nodes); }
      nodes := nodes[id := weight];
      vnodeMap, ring := ClaimSorted(vnodeMap, ring, id, virtualNodes * weight, at);
      return NoError;
    }

    /** Exactly the node's positions go, unless one of them was somebody else's. */
    method RemoveNode(id: NodeID) returns (err: Error)
      requires Valid()
      modifies this
      ensures Valid()
      ensures err == if id == "" then EmptyNodeID else if id !in old(nodes) then NodeNotFound else NoError
      ensures nodes == if err == NoError then old(nodes) - {id} else old(nodes)
      ensures err != NoError ==> vnodeMap == old(vnodeMap) && ring == old(ring)
      ensures err == NoError ==>
        && vnodeMap == old(vnodeMap) - Spots(at, id, virtualNodes * old(nodes[id]))
        && (vnodeMap == Struck(old(vnodeMap), id) <==> OwnSpots(old(vnodeMap), Spots(at, id, virtualNodes * old(nodes[id])), id))
        && (old(Clean()) ==> Clean() && vnodeMap == Struck(old(vnodeMap), id))
    {
      hide NoCollisions, Spots, HasSpot;
      if id == "" { return EmptyNodeID; }
      if id !in nodes { return NodeNotFound; }
      ForfeitRoots(vnodeMap, id, at, virtualNodes, nodes);
      if Clean() { Forfeited(vnodeMap, id, at, virtualNodes, nodes); }
      vnodeMap := Forfeit(vnodeMap, id, virtualNodes * nodes[id], at);
      nodes := nodes - {id};
      var keys := KeysInSomeOrder(vnodeMap);
      ring := SortPositions(keys);
      return NoError;
    }

    /** The nodes in the order the key prefers them. */
    ghost function PreferenceOf(key: string): seq<NodeID>
      requires Valid()
      reads this
    {
      Preference(ring, vnodeMap, hashKey(key))
    }

    method GetNode(key: string) returns (err: Error, id: NodeID)
      requires Valid()
      ensures err == if vnodeMap == map[] then EmptyRing else NoError
      ensures err == NoError ==> exists p :: Successor(vnodeMap, hashKey(key), p) && id == vnodeMap[p]
      ensures err == NoError ==> PreferenceOf(key) != [] && id == PreferenceOf(key)[0]
    {
      if |ring| == 0 {
        assert forall p :: p !in vnodeMap;
        return EmptyRing, "";
      }
      assert ring[0] in vnodeMap;
      var idx := Search(ring, hashKey(key));
      if idx == |ring| { idx := 0; }
      FirstClockwise(ring, hashKey(key));
      FirstOnlyIs(Owners(Clockwise(ring, hashKey(key)), vnodeMap));
      StartsAtSuccessor(ring, vnodeMap, hashKey(key), idx);
      return NoError, vnodeMap[ring[idx]];
    }

    /** The first n preferred nodes, or all of them: those whose positions come soonest, clockwise
        from the key's hash. */
    method GetNodes(key: string, n: int) returns (err: Error, ids: seq<NodeID>)
      requires Valid()
      ensures err == if vnodeMap == map[] then EmptyRing else NoError
      ensures err == NoError ==> |ids| == Clamp(n, |Standing(vnodeMap)|) && Different(ids) && Soonest(vnodeMap, hashKey(key), ids)
      ensures err == NoError ==> ids == PreferenceOf(key)[..Clamp(n, |PreferenceOf(key)|)]
      ensures |PreferenceOf(key)| <= |nodes| && (|PreferenceOf(key)| == |nodes| <==> AllStand(vnodeMap, nodes))
      ensures Clean() ==> AllStand(vnodeMap, nodes)
    {
      hide Owned, Rooted, AllStand, NoCollisions, Soonest, Standing, Different;
      OnlyNodes(at, virtualNodes, nodes, vnodeMap, ring, hashKey(key));
      AllPreferred(at, virtualNodes, nodes, vnodeMap, ring, hashKey(key));
      FirstAreSoonest(ring, vnodeMap, hashKey(key), Clamp(n, |PreferenceOf(key)|));
      if Clean() { OwnedStand(at, virtualNodes, nodes, vnodeMap); }
      if |ring| == 0 {
        assert forall p :: p !in vnodeMap;
        return EmptyRing, [];
      }
      assert ring[0] in vnodeMap;
      if n <= 0 { return NoError, []; }
      var wanted := if n > |nodes| then |nodes| else n;
      ids := Collect(ring, vnodeMap, hashKey(key), wanted);
      err := NoError;
    }
  }

  /** The nodes are those of the ring that come soonest, in that order. */
  ghost predicate Soonest(owner: map<nat, NodeID>, h: nat, ids: seq<NodeID>) {
    && (forall i :: 0 <= i < |ids| ==> ids[i] in Standing(owner))
    && (forall i, j :: 0 <= i < j < |ids| ==> Precedes(owner, h, ids[i], ids[j]))
    && (forall i, x :: 0 <= i < |ids| && x in Standing(owner) && x !in ids ==> Precedes(owner, h, ids[i], x))
  }

  lemma StartsAtSuccessor(ring: seq<nat>, owner: map<nat, NodeID>, h: nat, idx: int)
    requires Rings(ring, owner) && ring != [] && idx == if Start(ring, h) == |ring| then 0 else Start(ring, h)
    ensures Successor(owner, h, ring[idx])
  {
    StartIs(ring, h);
    assert ring[idx] in ring;
    forall q | q in owner ensures h <= q ==> h <= ring[idx] <= q
      ensures ring[idx] < h ==> ring[idx] <= q
    {
      assert q in ring;
      var i :| 0 <= i < |ring| && ring[i] == q;
    }
  }

  lemma PreferenceStands(ring: seq<nat>, owner: map<nat, NodeID>, h: nat)
    requires Rings(ring, owner)
    ensures Different(Preference(ring, owner, h)) && forall id :: id in Preference(ring, owner, h) <==> id in Standing(owner)
  {
    hide Start, FirstOnly;
    var walk := Clockwise(ring, h);
    assert ring == ring[..Start(ring, h)] + ring[Start(ring, h)..];
    assert forall p :: p in walk <==> p in owner;
    FirstOnlyIs(Owners(walk, owner));
    forall id ensures id in Owners(walk, owner) <==> id in Standing(owner) { WalkHas(owner, walk, id); }
  }

  /** The beginning of a preference order. */
  lemma FirstAreSoonest(ring: seq<nat>, owner: map<nat, NodeID>, h: nat, k: nat)
    requires Rings(ring, owner) && k <= |Preference(ring, owner, h)|
    ensures |Preference(ring, owner, h)| == |Standing(owner)|
    ensures Different(Preference(ring, owner, h)[..k]) && Soonest(owner, h, Preference(ring, owner, h)[..k])
  {
    hide Preference, Precedes, Standing;
    var order := Preference(ring, owner, h);
    PreferenceStands(ring, owner, h);
    PreferenceOrder(ring, owner, h);
    DifferentCount(order, Standing(owner));
    var ids := order[..k];
    forall i | 0 <= i < k ensures ids[i] in Standing(owner) { assert order[i] in order; }
    forall i, x | 0 <= i < k && x in Standing(owner) && x !in ids ensures Precedes(owner, h, ids[i], x) {
      assert x in order;
      var j :| 0 <= j < |order| && order[j] == x;
      assert forall i :: 0 <= i < k ==> ids[i] != x;
    }
  }

  function Clamp(n: int, most: nat): (k: nat)
    ensures k <= most
  {
    if n <= 0 then 0 else if n > most then most else n
  }

  /** None of the positions is owned by another node. */
  predicate OwnSpots(owner: map<nat, NodeID>, spots: set<nat>, id: NodeID) {
    forall p :: p in owner && p in spots ==> owner[p] == id
  }

  /** sort.Search: the first position that is not before the hash. */
  method Search(ring: seq<nat>, h: nat) returns (idx: nat)
    requires Sorted(ring)
    ensures idx == Start(ring, h)
  {
    var lo, hi := 0, |ring|;
    while lo < hi
      invariant 0 <= lo <= hi <= |ring|
      invariant forall i :: 0 <= i < lo ==> ring[i] < h
      invariant forall i :: hi <= i < |ring| ==> ring[i] >= h
    {
      var mid := (lo + hi) / 2;
      if ring[mid] >= h { hi := mid; } else { lo := mid + 1; }
    }
    SameCount(ring, h, lo);
    idx := lo;
  }

  lemma FirstClockwise(ring: seq<nat>, h: nat)
    requires ring != []
    ensures Clockwise(ring, h)[0] == ring[if Start(ring, h) == |ring| then 0 else Start(ring, h)]
  {
  }

  /** Position i of the walk, by index arithmetic. */
  lemma ClockwiseAt(ring: seq<nat>, h: nat, i: nat)
    requires i < |ring|
    ensures var idx := if Start(ring, h) == |ring| then 0 else Start(ring, h);
      Clockwise(ring, h)[i] == ring[if idx + i < |ring| then idx + i else idx + i - |ring|]
  {
  }

  lemma {:induction false} FirstOnlyPrefix(ids: seq<NodeID>, k: nat)
    requires k <= |ids|
    ensures FirstOnly(ids[..k]) <= FirstOnly(ids)
    decreases |ids| - k
  {
    if k < |ids| {
      FirstOnlyPrefix(ids, k + 1);
      assert ids[..k + 1] == ids[..k] + [ids[k]];
      FirstOnlyLast(ids[..k], ids[k]);
    } else {
      assert ids[..k] == ids;
    }
  }

  method Collect(ring: seq<nat>, owner: map<nat, NodeID>, h: nat, wanted: nat) returns (ids: seq<NodeID>)
    requires Rings(ring, owner) && ring != []
    ensures ids == Preference(ring, owner, h)[..Clamp(wanted, |Preference(ring, owner, h)|)]
  {
    hide FirstOnly, Start;
    var idx := Search(ring, h);
    if idx == |ring| { idx := 0; }
    ghost var all := Owners(Clockwise(ring, h), owner);
    var visited: set<NodeID> := {};
    ids := [];
    var i := 0;
    assert all[..0] == [];
    FirstOnlyNothing();
    while i < |ring| && |ids| < wanted
      invariant 0 <= i <= |ring| && ids == FirstOnly(all[..i]) && |ids| <= wanted
      invariant forall x :: x in visited <==> x in ids
    {
      ClockwiseAt(ring, h, i);
      var ringIdx := WrapIndex(idx + i, |ring|);
      var id := owner[ring[ringIdx]];
      assert all[..i + 1] == all[..i] + [all[i]];
      FirstOnlyLast(all[..i], all[i]);
      if id !in visited {
        visited := visited + {id};
        ids := ids + [id];
      }
      i := i + 1;
    }
    FirstOnlyPrefix(all, i);
    assert i == |ring| ==> all[..i] == all;
  }

  lemma FirstOnlyNothing()
    ensures FirstOnly([]) == []
  {
  }

  method WrapIndex(i: nat, n: nat) returns (r: nat)
    requires 0 < n && i < 2 * n
    ensures r == if i < n then i else i - n
  {
    r := i % n;
  }

  ghost predicate AllStand(owner: map<nat, NodeID>, nodes: map<NodeID, nat>) { forall id :: id in nodes ==> id in Standing(owner) }

  lemma OwnedStand(at: PositionHash, v: nat, nodes: map<NodeID, nat>, owner: map<nat, NodeID>)
    requires v > 0 && (forall id :: id in nodes ==> nodes[id] > 0) && Owned(at, v, nodes, owner)
    ensures AllStand(owner, nodes)
  {
    forall id | id in nodes ensures id in Standing(owner) {
      Positive(v, nodes[id]);
      assert HasSpot(at, v, nodes, id, at(id, 0));
    }
  }

  /** Only nodes are in a key's order, each at most once: those that own a position. */
  lemma OnlyNodes(at: PositionHash, v: nat, nodes: map<NodeID, nat>, owner: map<nat, NodeID>, ring: seq<nat>, h: nat)
    requires Rooted(at, v, nodes, owner) && Rings(ring, owner)
    ensures |Preference(ring, owner, h)| <= |nodes| && Different(Preference(ring, owner, h))
    ensures forall id :: id in Preference(ring, owner, h) <==> id in Standing(owner)
    ensures forall id :: id in Preference(ring, owner, h) ==> id in nodes
  {
    hide Preference, Spots, Different;
    PreferenceStands(ring, owner, h);
    forall id | id in Preference(ring, owner, h) ensures id in nodes.Keys {
      var p :| p in owner && owner[p] == id;
      assert HasSpot(at, v, nodes, owner[p], p);
    }
    DifferentAtMost(Preference(ring, owner, h), nodes.Keys);
  }

  lemma WalkHas(owner: map<nat, NodeID>, walk: seq<nat>, id: NodeID)
    requires forall p :: p in walk <==> p in owner
    ensures id in Owners(walk, owner) <==> id in Standing(owner)
  {
    var all := Owners(walk, owner);
    if id in Standing(owner) {
      var p :| p in owner && owner[p] == id;
      var i :| 0 <= i < |walk| && walk[i] == p;
      assert all[i] == id;
    }
    if id in all {
      var i :| 0 <= i < |all| && all[i] == id;
      assert walk[i] in owner;
    }
  }

  lemma {:induction false} DifferentAtMost(ids: seq<NodeID>, s: set<NodeID>)
    requires Different(ids) && forall x :: x in ids ==> x in s
    ensures |ids| <= |s|
    decreases |ids|
  {
    if ids != [] {
      var init, last := ids[..|ids| - 1], ids[|ids| - 1];
      assert forall x :: x in init ==> x in ids;
      assert last in ids;
      DifferentAtMost(init, s - {last});
    }
  }

  /** Every node is in a key's order, once, exactly when every node owns a position. */
  lemma AllPreferred(at: PositionHash, v: nat, nodes: map<NodeID, nat>, owner: map<nat, NodeID>, ring: seq<nat>, h: nat)
    requires Rooted(at, v, nodes, owner) && Rings(ring, owner)
    ensures |Preference(ring, owner, h)| == |nodes| <==> AllStand(owner, nodes)
    ensures (forall id :: id in Preference(ring, owner, h) <==> id in nodes) <==> AllStand(owner, nodes)
  {
    OnlyNodes(at, v, nodes, owner, ring, h);
    hide Standing, Preference, Rooted, Rings;
    var order := Preference(ring, owner, h);
    if AllStand(owner, nodes) {
      DifferentCount(order, nodes.Keys);
    } else {
      var id :| id in nodes && id !in Standing(owner);
      assert id !in order;
      DifferentAtMost(order, nodes.Keys - {id});
    }
  }

  lemma Positive(a: nat, b: nat)
    requires a > 0 && b > 0
    ensures a * b > 0
  {
  }

  lemma {:induction false} DifferentCount(ids: seq<NodeID>, s: set<NodeID>)
    requires Different(ids) && forall x :: x in ids <==> x in s
    ensures |ids| == |s|
    decreases |ids|
  {
    if ids == [] {
      assert s == {};
    } else {
      var init, last := ids[..|ids| - 1], ids[|ids| - 1];
      assert forall x :: x in ids <==> x in init || x == last;
      DifferentCount(init, s - {last});
    }
  }

  function Granted(spots: set<nat>, id: NodeID): map<nat, NodeID> { map p | p in spots :: id }

  /** The loop that claims a node's positions and appends them to the ring. */
  method Claim(owner0: map<nat, NodeID>, ring0: seq<nat>, id: NodeID, n: nat, at: PositionHash)
    returns (owner: map<nat, NodeID>, ring: seq<nat>)
    ensures owner == owner0 + Granted(Spots(at, id, n), id)
    ensures forall p :: p in ring <==> p in ring0 || p in Spots(at, id, n)
  {
    owner, ring := owner0, ring0;
    assert Spots(at, id, 0) == {};
    hide Spots;
    for i := 0 to n
      invariant owner == owner0 + Granted(Spots(at, id, i), id)
      invariant forall p :: p in ring <==> p in ring0 || p in Spots(at, id, i)
    {
      SpotsNext(at, id, i);
      GrantNext(owner0, Spots(at, id, i), id, at(id, i));
      owner := owner[at(id, i) := id];
      ring := ring + [at(id, i)];
    }
  }

  lemma GrantsAll(owner: map<nat, NodeID>, id: NodeID, n: nat, at: PositionHash)
    ensures forall i :: 0 <= i < n ==>
      at(id, i) in owner + Granted(Spots(at, id, n), id) && (owner + Granted(Spots(at, id, n), id))[at(id, i)] == id
  {
    forall i | 0 <= i < n ensures at(id, i) in Spots(at, id, n) {}
  }

  lemma GrantNext(owner: map<nat, NodeID>, spots: set<nat>, id: NodeID, p: nat)
    ensures owner + Granted(spots + {p}, id) == (owner + Granted(spots, id))[p := id]
  {
  }

  method ClaimSorted(owner0: map<nat, NodeID>, ring0: seq<nat>, id: NodeID, n: nat, at: PositionHash)
    returns (owner: map<nat, NodeID>, ring: seq<nat>)
    requires Rings(ring0, owner0)
    ensures owner == owner0 + Granted(Spots(at, id, n), id) && Rings(ring, owner)
  {
    hide Spots;
    owner, ring := Claim(owner0, ring0, id, n, at);
    ring := SortPositions(ring);
  }

  lemma SpotsNext(at: PositionHash, id: NodeID, i: nat)
    ensures Spots(at, id, i + 1) == Spots(at, id, i) + {at(id, i)}
  {
  }

  /** The loop that gives them up. */
  method Forfeit(owner0: map<nat, NodeID>, id: NodeID, n: nat, at: PositionHash) returns (owner: map<nat, NodeID>)
    ensures owner == owner0 - Spots(at, id, n)
  {
    owner := owner0;
    for i := 0 to n
      invariant owner == owner0 - Spots(at, id, i)
    {
      SpotsNext(at, id, i);
      owner := owner - {at(id, i)};
    }
  }

  lemma GrantRoots(owner: map<nat, NodeID>, id: NodeID, weight: nat, at: PositionHash, v: nat, nodes: map<NodeID, nat>)
    requires Rooted(at, v, nodes, owner) && id !in nodes
    ensures var spots := Spots(at, id, v * weight); var owner' := owner + Granted(spots, id);
      && Rooted(at, v, nodes[id := weight], owner')
      && (owner == Struck(owner', id) <==> owner.Keys !! spots)
  {
    hide Spots;
    var spots, nodes' := Spots(at, id, v * weight), nodes[id := weight];
    var owner' := owner + Granted(spots, id);
    forall p | p in owner' ensures HasSpot(at, v, nodes', owner'[p], p) {
      if p !in spots { assert HasSpot(at, v, nodes, owner[p], p); }
    }
    forall p | p in owner ensures owner[p] != id { assert HasSpot(at, v, nodes, owner[p], p); }
    if owner.Keys !! spots {
      assert owner == Struck(owner', id);
    } else {
      var p :| p in owner && p in spots;
      assert p !in Struck(owner', id);
    }
  }

  lemma ForfeitRoots(owner: map<nat, NodeID>, id: NodeID, at: PositionHash, v: nat, nodes: map<NodeID, nat>)
    requires Rooted(at, v, nodes, owner) && id in nodes
    ensures var spots := Spots(at, id, v * nodes[id]); var owner' := owner - spots;
      && Rooted(at, v, nodes - {id}, owner')
      && (owner' == Struck(owner, id) <==> OwnSpots(owner, spots, id))
  {
    hide Spots;
    var spots, nodes' := Spots(at, id, v * nodes[id]), nodes - {id};
    var owner' := owner - spots;
    forall p | p in owner ensures owner[p] == id ==> p in spots { assert HasSpot(at, v, nodes, owner[p], p); }
    forall p | p in owner' ensures HasSpot(at, v, nodes', owner'[p], p) { assert HasSpot(at, v, nodes, owner[p], p); }
    if OwnSpots(owner, spots, id) {
      assert owner' == Struck(owner, id);
    } else {
      var p :| p in owner && p in spots && owner[p] != id;
      assert p in Struck(owner, id);
    }
  }

  /** A new node's positions are nobody else's. */
  lemma FreshSpots(owner: map<nat, NodeID>, id: NodeID, weight: nat, at: PositionHash, v: nat, nodes: map<NodeID, nat>, p: nat)
    requires Owned(at, v, nodes, owner) && id !in nodes && NoCollisions(at, v, nodes[id := weight]) && p in owner
    ensures p !in Spots(at, id, v * weight)
  {
    hide Spots, NoCollisions;
    var nodes' := nodes[id := weight];
    assert HasSpot(at, v, nodes, owner[p], p);
    assert HasSpot(at, v, nodes', owner[p], p);
    if HasSpot(at, v, nodes', id, p) {
      SpotsApart(at, v, nodes', owner[p], id, p);
      assert false;
    }
  }

  lemma Claimed(owner: map<nat, NodeID>, id: NodeID, weight: nat, at: PositionHash, v: nat, nodes: map<NodeID, nat>)
    requires Owned(at, v, nodes, owner) && id !in nodes && NoCollisions(at, v, nodes[id := weight])
    ensures var owner' := owner + Granted(Spots(at, id, v * weight), id);
      && Owned(at, v, nodes[id := weight], owner')
      && owner == Struck(owner', id)
  {
    hide NoCollisions, Spots;
    var spots, nodes' := Spots(at, id, v * weight), nodes[id := weight];
    var owner' := owner + Granted(spots, id);
    forall p | p in owner ensures p !in spots { FreshSpots(owner, id, weight, at, v, nodes, p); }
    forall p | p in owner' ensures HasSpot(at, v, nodes', owner'[p], p) {
      if p in owner { assert HasSpot(at, v, nodes, owner[p], p); }
    }
    forall x, p | HasSpot(at, v, nodes', x, p) ensures p in owner' && owner'[p] == x {
      if x != id { assert HasSpot(at, v, nodes, x, p); }
    }
  }

  lemma Forfeited(owner: map<nat, NodeID>, id: NodeID, at: PositionHash, v: nat, nodes: map<NodeID, nat>)
    requires Owned(at, v, nodes, owner) && id in nodes && NoCollisions(at, v, nodes)
    ensures var owner' := owner - Spots(at, id, v * nodes[id]);
      && Owned(at, v, nodes - {id}, owner') && NoCollisions(at, v, nodes - {id})
      && owner' == Struck(owner, id)
  {
    var spots, nodes' := Spots(at, id, v * nodes[id]), nodes - {id};
    var owner' := owner - spots;
    forall p | p in owner ensures p in spots <==> owner[p] == id {
      assert HasSpot(at, v, nodes, owner[p], p);
      if p in spots { assert HasSpot(at, v, nodes, id, p); }
    }
    forall p | p in owner' ensures HasSpot(at, v, nodes', owner'[p], p) { assert HasSpot(at, v, nodes, owner[p], p); }
    forall x, p | HasSpot(at, v, nodes', x, p) ensures p in owner' && owner'[p] == x { assert HasSpot(at, v, nodes, x, p); }
    forall x, i, x', i' | Placed(nodes', v, x, i) && Placed(nodes', v, x', i') && at(x, i) == at(x', i') ensures x == x' && i == i' {
      assert Placed(nodes, v, x, i) && Placed(nodes, v, x', i');
    }
  }

  /** Two nodes that hash to one position: adding the second and removing it again takes the
      first off the ring. */
  lemma CollisionLoses(at: PositionHash, a: NodeID, b: NodeID)
    requires a != b && at(a, 0) == at(b, 0)
    ensures var alone := map[at(a, 0) := a]; var both := alone + Granted(Spots(at, b, 1), b);
      both == map[at(b, 0) := b] && both - Spots(at, b, 1) == map[] != Struck(alone, b)
  {
    var spots := Spots(at, b, 1);
    assert at(b, 0) in spots && forall p :: p in spots ==> p == at(b, 0);
    assert at(a, 0) in Struck(map[at(a, 0) := a], b);
  }
}
