/** ShortestPath of internal/graphdb: Dijkstra's search with stale queue entries, over exact
    weights, with the sentinel 1e18 that stands for "not reached". */
module Dijkstra {
  import opened Graph

  const INF: real := 1000000000000000000.0

  datatype PathResult = PathResult(nodes: seq<string>, weight: real)

  datatype Outcome = Found(result: PathResult) | Failed(error: Error)

  // ----------------------------------------------------------------------- paths

  ghost predicate Walk(net: Net, p: seq<string>, start: string, end: string) {
    && |p| > 0 && p[0] == start && p[|p| - 1] == end && start in net.nodes
    && forall i :: 0 <= i < |p| - 1 ==> (p[i], p[i + 1]) in net.edges
  }

  ghost function Length(net: Net, p: seq<string>): real
    requires forall i :: 0 <= i < |p| - 1 ==> (p[i], p[i + 1]) in net.edges
  {
    if |p| < 2 then 0.0
    else Length(net, p[..|p| - 1]) + net.edges[(p[|p| - 2], p[|p| - 1])].weight
  }

  lemma {:induction false} LengthOfCons(net: Net, u: string, p: seq<string>, start: string, end: string)
    requires Walk(net, p, start, end) && (u, start) in net.edges && u in net.nodes
    ensures Walk(net, [u] + p, u, end)
    ensures Length(net, [u] + p) == net.edges[(u, start)].weight + Length(net, p)
    decreases |p|
  {
    var q := [u] + p;
    forall i | 0 <= i < |q| - 1 ensures (q[i], q[i + 1]) in net.edges {
      if i > 0 { assert (p[i - 1], p[i]) in net.edges; }
    }
    assert q[..|q| - 1] == [u] + p[..|p| - 1];
    if |p| > 1 {
      LengthOfCons(net, u, p[..|p| - 1], start, p[|p| - 2]);
    } else {
      assert Length(net, q[..|q| - 1]) == 0.0;
    }
  }

  // ------------------------------------------------------------------ search state

  datatype Item = Item(node: string, dist: real)

  /** The local variables of the search. */
  datatype Front = Front(dist: map<string, real>, prev: map<string, string>, visited: set<string>, pq: seq<Item>)

  ghost predicate Known(net: Net, f: Front) {
    && f.dist.Keys == net.nodes && f.visited <= net.nodes
    && forall v :: v in f.dist ==> 0.0 <= f.dist[v] <= INF
  }

  /** A reached node other than the start knows the visited node it was reached from. */
  ghost predicate Tracked(net: Net, f: Front, start: string, v: string)
    requires Known(net, f) && v in net.nodes
  {
    v != start && f.dist[v] < INF ==>
      && v in f.prev && f.prev[v] in f.visited && (f.prev[v], v) in net.edges
      && f.dist[v] == f.dist[f.prev[v]] + net.edges[(f.prev[v], v)].weight
  }

  ghost predicate Queued(net: Net, f: Front, v: string)
    requires Known(net, f) && v in net.nodes
  {
    v !in f.visited && f.dist[v] < INF ==> Item(v, f.dist[v]) in f.pq
  }

  /** A queue entry may be stale, but never promises too little. */
  ghost predicate Honest(net: Net, f: Front)
    requires Known(net, f)
  {
    forall it {:trigger it in f.pq} :: it in f.pq ==> it.node in net.nodes && f.dist[it.node] <= it.dist < INF
  }

  ghost predicate Relaxed(net: Net, f: Front, u: string)
    requires Known(net, f)
  {
    forall k {:trigger net.edges[k]} :: k in net.edges && k.0 == u && u in f.dist && k.1 in f.dist ==>
      f.dist[k.1] <= f.dist[u] + net.edges[k].weight
  }

  ghost predicate Down(f: Front, rank: map<string, nat>, v: string) {
    v in f.prev && f.prev[v] in f.visited && f.prev[v] in rank && v in rank && rank[f.prev[v]] < rank[v]
  }

  /** rank is the order of visits; it makes the walk back along prev go down. */
  ghost predicate Ranked(f: Front, start: string, rank: map<string, nat>) {
    && rank.Keys == f.visited
    && (forall v {:trigger rank[v]} :: v in rank ==> rank[v] < |f.visited|)
    && (forall v {:trigger Down(f, rank, v)} :: v in f.visited && v != start ==> Down(f, rank, v))
  }

  ghost predicate Ordered(net: Net, f: Front)
    requires Known(net, f)
  {
    forall u, v {:trigger f.dist[u], f.dist[v]} :: u in f.visited && v in net.nodes && v !in f.visited ==> f.dist[u] <= f.dist[v]
  }

  ghost predicate Inv(net: Net, f: Front, start: string, rank: map<string, nat>) {
    && NetOk(net) && start in net.nodes && Known(net, f) && f.dist[start] == 0.0
    && (forall v {:trigger Tracked(net, f, start, v)} :: v in net.nodes ==> Tracked(net, f, start, v))
    && (forall v {:trigger Queued(net, f, v)} :: v in net.nodes ==> Queued(net, f, v))
    && (forall v :: v in f.visited ==> f.dist[v] < INF)
    && Honest(net, f) && Ordered(net, f) && Ranked(f, start, rank)
  }

  ghost predicate AllRelaxed(net: Net, f: Front, except: set<string>)
    requires Known(net, f)
  {
    forall u {:trigger Relaxed(net, f, u)} :: u in f.visited && u !in except ==> Relaxed(net, f, u)
  }

  /** No visited node is further away than u. */
  ghost predicate Furthest(f: Front, u: string) {
    u in f.visited && u in f.dist && forall x :: x in f.visited && x in f.dist ==> f.dist[x] <= f.dist[u]
  }

  // ---------------------------------------------------------------------- steps

  /** heap.Pop: some entry of least distance leaves the queue. */
  method PopMin(pq: seq<Item>) returns (item: Item, rest: seq<Item>)
    requires pq != []
    ensures item in pq && |rest| == |pq| - 1
    ensures forall it :: it in pq ==> item.dist <= it.dist && (it == item || it in rest)
    ensures forall it :: it in rest ==> it in pq
  {
    var best, i := 0, 1;
    while i < |pq|
      invariant 0 <= best < i <= |pq|
      invariant forall j :: 0 <= j < i ==> pq[best].dist <= pq[j].dist
    {
      if pq[i].dist < pq[best].dist { best := i; }
      i := i + 1;
    }
    item, rest := pq[best], pq[..best] + pq[best + 1..];
    forall it | it in pq ensures it == item || it in rest {
      var j :| 0 <= j < |pq| && pq[j] == it;
      if j < best { assert rest[j] == it; } else if j > best { assert rest[j - 1] == it; }
    }
  }

  /** A stale entry is dropped. */
  lemma DropKeeps(net: Net, f: Front, f': Front, start: string, rank: map<string, nat>, item: Item)
    requires Inv(net, f, start, rank) && f' == f.(pq := f'.pq) && item.node in f.visited
    requires forall it :: it in f.pq ==> it == item || it in f'.pq
    requires forall it :: it in f'.pq ==> it in f.pq
    ensures Inv(net, f', start, rank)
  {
    forall v | v in net.nodes ensures Tracked(net, f', start, v) && Queued(net, f', v) {
      assert Tracked(net, f, start, v) && Queued(net, f, v);
    }
    SameRanked(f, f', start, rank);
  }

  lemma SameRanked(f: Front, f': Front, start: string, rank: map<string, nat>)
    requires Ranked(f, start, rank) && f'.visited == f.visited
    requires forall v :: v in f.visited && v in f.prev ==> v in f'.prev && f'.prev[v] == f.prev[v]
    ensures Ranked(f', start, rank)
  {
    forall v | v in f'.visited && v != start ensures Down(f', rank, v) {
      assert Down(f, rank, v);
    }
  }

  lemma SameRelaxed(net: Net, f: Front, f': Front, except: set<string>, except': set<string>)
    requires Known(net, f) && Known(net, f') && f'.dist == f.dist && AllRelaxed(net, f, except)
    requires f'.visited - except' <= f.visited - except
    ensures AllRelaxed(net, f', except')
  {
    forall u | u in f'.visited && u !in except' ensures Relaxed(net, f', u) {
      assert u in f'.visited - except';
      assert Relaxed(net, f, u);
    }
  }

  /** A fresh entry carries its node's distance, and no unvisited node is nearer. */
  lemma FreshIsNearest(net: Net, f: Front, start: string, rank: map<string, nat>, item: Item, v: string)
    requires Inv(net, f, start, rank) && item in f.pq && item.node !in f.visited && v in net.nodes && v !in f.visited
    requires forall it :: it in f.pq ==> item.dist <= it.dist
    ensures item.node in net.nodes && f.dist[item.node] == item.dist < INF && item.dist <= f.dist[v]
  {
    assert Queued(net, f, item.node) && Queued(net, f, v);
  }

  /** An entry of least distance leaves the queue, and its node is visited. */
  ghost predicate Visits(f: Front, f': Front, item: Item) {
    && item in f.pq && item.node !in f.visited
    && (forall it :: it in f.pq ==> item.dist <= it.dist && (it == item || it in f'.pq))
    && (forall it :: it in f'.pq ==> it in f.pq)
    && f' == f.(pq := f'.pq, visited := f.visited + {item.node})
  }

  lemma VisitOne(net: Net, f: Front, f': Front, start: string, rank: map<string, nat>, item: Item, v: string)
    requires Inv(net, f, start, rank) && Visits(f, f', item) && v in net.nodes
    ensures Known(net, f') && Tracked(net, f', start, v) && Queued(net, f', v)
  {
    hide Ranked, Ordered;
    FreshIsNearest(net, f, start, rank, item, item.node);
    assert Tracked(net, f, start, v) && Queued(net, f, v);
  }

  lemma VisitRest(net: Net, f: Front, f': Front, start: string, rank: map<string, nat>, item: Item)
    requires Inv(net, f, start, rank) && Visits(f, f', item)
    ensures Known(net, f') && Honest(net, f') && Ordered(net, f') && forall v :: v in f'.visited ==> f'.dist[v] < INF
  {
    hide Ranked, Tracked, Queued;
    FreshIsNearest(net, f, start, rank, item, item.node);
    forall x, v | x in f'.visited && v in net.nodes && v !in f'.visited ensures f'.dist[x] <= f'.dist[v] {
      FreshIsNearest(net, f, start, rank, item, v);
    }
  }

  lemma VisitKeeps(net: Net, f: Front, f': Front, start: string, rank: map<string, nat>, item: Item)
    requires Inv(net, f, start, rank) && Visits(f, f', item)
    ensures Inv(net, f', start, rank[item.node := |f.visited|])
  {
    hide Ranked, Ordered;
    VisitRest(net, f, f', start, rank, item);
    forall v | v in net.nodes ensures Tracked(net, f', start, v) && Queued(net, f', v) {
      VisitOne(net, f, f', start, rank, item, v);
    }
    assert item.node in net.nodes && f.dist[item.node] < INF;
    assert Tracked(net, f, start, item.node);
    VisitRanked(f, f', start, rank, item.node);
  }

  lemma VisitRanked(f: Front, f': Front, start: string, rank: map<string, nat>, u: string)
    requires Ranked(f, start, rank) && u !in f.visited && f'.visited == f.visited + {u} && f'.prev == f.prev
    requires u != start ==> u in f.prev && f.prev[u] in f.visited
    ensures Ranked(f', start, rank[u := |f.visited|])
  {
    hide Down;
    var rank' := rank[u := |f.visited|];
    RankKeys(rank, f.visited, u);
    forall v | v in f'.visited && v != start ensures Down(f', rank', v) { VisitDown(f, f', start, rank, u, v); }
  }

  lemma RankKeys(rank: map<string, nat>, visited: set<string>, u: string)
    requires rank.Keys == visited && u !in visited && forall v :: v in rank ==> rank[v] < |visited|
    ensures rank[u := |visited|].Keys == visited + {u} && |visited + {u}| == |visited| + 1
  {
    assert rank[u := |visited|].Keys == visited + {u};
  }

  lemma VisitDown(f: Front, f': Front, start: string, rank: map<string, nat>, u: string, v: string)
    requires Ranked(f, start, rank) && u !in f.visited && f'.visited == f.visited + {u} && f'.prev == f.prev
    requires (u != start ==> u in f.prev && f.prev[u] in f.visited) && v in f'.visited && v != start
    ensures Down(f', rank[u := |f.visited|], v)
  {
    if v != u { assert Down(f, rank, v); } else { assert rank[f.prev[u]] < |f.visited|; }
  }

  /** What relaxing one edge does. */
  function Lower(f: Front, u: string, v: string, alt: real): Front {
    f.(dist := f.dist[v := alt], prev := f.prev[v := u], pq := f.pq + [Item(v, alt)])
  }

  ghost predicate CanLower(net: Net, f: Front, start: string, rank: map<string, nat>, u: string, v: string) {
    && Inv(net, f, start, rank) && Furthest(f, u) && (u, v) in net.edges && v !in f.visited
    && f.dist[u] + net.edges[(u, v)].weight < f.dist[v]
  }

  lemma LowerOne(net: Net, f: Front, start: string, rank: map<string, nat>, u: string, v: string, x: string)
    requires CanLower(net, f, start, rank, u, v) && x in net.nodes
    ensures var f' := Lower(f, u, v, f.dist[u] + net.edges[(u, v)].weight);
      Known(net, f') && Tracked(net, f', start, x) && Queued(net, f', x)
  {
    hide Ranked, Honest, Ordered;
    var alt := f.dist[u] + net.edges[(u, v)].weight;
    var f' := Lower(f, u, v, alt);
    assert f'.dist.Keys == net.nodes;
    assert Tracked(net, f, start, x) && Queued(net, f, x);
    assert f'.pq[|f.pq|] == Item(v, alt);
  }

  lemma LowerRest(net: Net, f: Front, start: string, rank: map<string, nat>, u: string, v: string)
    requires CanLower(net, f, start, rank, u, v)
    ensures var f' := Lower(f, u, v, f.dist[u] + net.edges[(u, v)].weight);
      Known(net, f') && Honest(net, f') && Ordered(net, f') && Ranked(f', start, rank)
  {
    hide Tracked, Queued;
    var f' := Lower(f, u, v, f.dist[u] + net.edges[(u, v)].weight);
    assert f'.dist.Keys == net.nodes;
    SameRanked(f, f', start, rank);
  }

  lemma LowerKeeps(net: Net, f: Front, start: string, rank: map<string, nat>, u: string, v: string)
    requires CanLower(net, f, start, rank, u, v)
    ensures var f' := Lower(f, u, v, f.dist[u] + net.edges[(u, v)].weight); Inv(net, f', start, rank) && Furthest(f', u)
  {
    var f' := Lower(f, u, v, f.dist[u] + net.edges[(u, v)].weight);
    LowerRest(net, f, start, rank, u, v);
    forall x | x in net.nodes ensures Known(net, f') && Tracked(net, f', start, x) && Queued(net, f', x) {
      LowerOne(net, f, start, rank, u, v, x);
    }
  }

  lemma LowerKeepsRelaxed(net: Net, f: Front, start: string, rank: map<string, nat>, u: string, v: string)
    requires CanLower(net, f, start, rank, u, v) && AllRelaxed(net, f, {u})
    ensures var f' := Lower(f, u, v, f.dist[u] + net.edges[(u, v)].weight);
      Known(net, f') && AllRelaxed(net, f', {u})
  {
    var f' := Lower(f, u, v, f.dist[u] + net.edges[(u, v)].weight);
    assert f'.dist.Keys == net.nodes;
    forall x | x in f'.visited && x !in {u} ensures Relaxed(net, f', x) {
      assert Relaxed(net, f, x);
    }
  }

  /** The edges out of u, the node just visited, are being relaxed. */
  ghost predicate Relaxing(net: Net, f: Front, start: string, rank: map<string, nat>, u: string) {
    Inv(net, f, start, rank) && Furthest(f, u) && AllRelaxed(net, f, {u})
  }

  lemma LowerRelaxing(net: Net, f: Front, start: string, rank: map<string, nat>, u: string, v: string)
    requires CanLower(net, f, start, rank, u, v) && Relaxing(net, f, start, rank, u)
    ensures var f' := Lower(f, u, v, f.dist[u] + net.edges[(u, v)].weight);
      && Relaxing(net, f', start, rank, u) && Reached(f', u, net.edges[(u, v)])
      && (forall d :: Reached(f, u, d) ==> Reached(f', u, d))
  {
    LowerKeeps(net, f, start, rank, u, v);
    LowerKeepsRelaxed(net, f, start, rank, u, v);
  }

  method RelaxAll(edges: seq<Edge>, u: string, f0: Front, ghost net: Net, ghost start: string, ghost rank: map<string, nat>)
    returns (f: Front)
    requires Relaxing(net, f0, start, rank, u) && Lists(net, edges, u, Out)
    ensures Inv(net, f, start, rank) && f.visited == f0.visited && AllRelaxed(net, f, {})
  {
    f := f0;
    var i := 0;
    while i < |edges|
      invariant 0 <= i <= |edges|
      invariant Relaxing(net, f, start, rank, u) && f.visited == f0.visited
      invariant forall j :: 0 <= j < i ==> Reached(f, u, edges[j])
    {
      var f' := RelaxOne(edges[i], u, f, net, start, rank);
      f := f';
      i := i + 1;
    }
    ListRelaxes(net, edges, u, f);
  }

  predicate Reached(f: Front, u: string, e: Edge) {
    u in f.dist && e.to in f.dist && f.dist[e.to] <= f.dist[u] + e.weight
  }

  lemma RelaxingKnows(net: Net, f: Front, start: string, rank: map<string, nat>, u: string, v: string)
    requires Relaxing(net, f, start, rank, u) && (u, v) in net.edges
    ensures u in f.dist && v in f.dist && (v in f.visited ==> f.dist[v] <= f.dist[u] + net.edges[(u, v)].weight)
    ensures v !in f.visited && f.dist[u] + net.edges[(u, v)].weight < f.dist[v] ==> CanLower(net, f, start, rank, u, v)
  {
    assert net.edges[(u, v)].weight >= 0.0;
  }

  method RelaxOne(e: Edge, u: string, f0: Front, ghost net: Net, ghost start: string, ghost rank: map<string, nat>)
    returns (f: Front)
    requires Relaxing(net, f0, start, rank, u)
    requires (u, e.to) in net.edges && net.edges[(u, e.to)] == e
    ensures Relaxing(net, f, start, rank, u) && f.visited == f0.visited && Reached(f, u, e)
    ensures forall d :: Reached(f0, u, d) ==> Reached(f, u, d)
  {
    hide Relaxing, CanLower;
    f := f0;
    var v := e.to;
    RelaxingKnows(net, f, start, rank, u, v);
    if v !in f.visited {
      var alt := f.dist[u] + e.weight;
      if alt < f.dist[v] {
        LowerRelaxing(net, f, start, rank, u, v);
        f := Lower(f, u, v, alt);
      }
    }
  }

  lemma ListRelaxes(net: Net, edges: seq<Edge>, u: string, f: Front)
    requires NetOk(net) && Known(net, f) && Lists(net, edges, u, Out) && u in f.visited && AllRelaxed(net, f, {u})
    requires forall j :: 0 <= j < |edges| ==> Reached(f, u, edges[j])
    ensures AllRelaxed(net, f, {})
  {
    assert Relaxed(net, f, u) by { EdgesRelax(net, edges, u, f); }
  }

  lemma EdgesRelax(net: Net, edges: seq<Edge>, u: string, f: Front)
    requires NetOk(net) && Known(net, f) && Lists(net, edges, u, Out) && u in f.dist
    requires forall j :: 0 <= j < |edges| ==> Reached(f, u, edges[j])
    ensures Relaxed(net, f, u)
  {
    forall k | k in net.edges && k.0 == u && k.1 in f.dist
      ensures f.dist[k.1] <= f.dist[u] + net.edges[k].weight
    {
      assert net.edges[k] in edges;
      var j :| 0 <= j < |edges| && edges[j] == net.edges[k];
    }
  }

  // ------------------------------------------------------------------- optimality

  /** What the search has settled when it stops: at the target, or with an empty queue. */
  ghost predicate Settled(net: Net, f: Front, start: string, target: string) {
    && NetOk(net) && Known(net, f) && target in net.nodes && start in net.nodes && f.dist[start] == 0.0
    && AllRelaxed(net, f, {target})
    && forall v :: v in net.nodes && (v !in f.visited || v == target) ==> f.dist[target] <= f.dist[v]
  }

  /** Every walk costs at least the distance of its end, or that of the target. */
  lemma {:induction false} NoShortcut(net: Net, f: Front, start: string, target: string, p: seq<string>, end: string)
    requires Settled(net, f, start, target) && Walk(net, p, start, end)
    ensures end in net.nodes && (f.dist[end] <= Length(net, p) || f.dist[target] <= Length(net, p))
    decreases |p|
  {
    if |p| > 1 {
      var q, y := p[..|p| - 1], p[|p| - 2];
      assert (p[|p| - 2], p[|p| - 2 + 1]) in net.edges;
      NoShortcut(net, f, start, target, q, y);
      if y in f.visited && y != target {
        assert Relaxed(net, f, y) && net.edges[(y, end)].weight >= 0.0;
      }
    }
  }

  // --------------------------------------------------------------------- walk back

  /** Follows prev from the target to the start. */
  method WalkBack(f: Front, start: string, target: string, ghost net: Net, ghost rank: map<string, nat>)
    returns (path: seq<string>)
    requires Inv(net, f, start, rank) && target in f.visited && start in f.visited
    ensures Walk(net, path, start, target) && Length(net, path) == f.dist[target]
  {
    path := [];
    var current := target;
    while current != start
      invariant current in f.visited
      invariant Walk(net, [current] + path, current, target)
      invariant f.dist[current] + Length(net, [current] + path) == f.dist[target]
      decreases rank[current]
    {
      assert Tracked(net, f, start, current) && Down(f, rank, current);
      LengthOfCons(net, f.prev[current], [current] + path, current, target);
      path := [current] + path;
      current := f.prev[current];
    }
    path := [start] + path;
  }

  // -------------------------------------------------------------------- the search

  method Begin(nodes: set<string>, start: string, ghost net: Net) returns (f: Front)
    requires NetOk(net) && nodes == net.nodes && start in nodes
    ensures Inv(net, f, start, map[]) && f.visited == {} && Item(start, 0.0) in f.pq
  {
    var dist := map id | id in nodes :: INF;
    f := Front(dist[start := 0.0], map[], {}, [Item(start, 0.0)]);
    assert f.pq[0] == Item(start, 0.0);
  }

  /** Between two pops. */
  ghost predicate Exploring(net: Net, f: Front, start: string, target: string, rank: map<string, nat>) {
    && Inv(net, f, start, rank) && AllRelaxed(net, f, {}) && target !in f.visited
    && (start !in f.visited ==> f.visited == {} && Item(start, 0.0) in f.pq)
  }

  /** A visit moves on to relaxing, or ends the search. */
  lemma Visit(net: Net, f: Front, f': Front, start: string, target: string, rank: map<string, nat>, item: Item)
    requires Exploring(net, f, start, target, rank) && Visits(f, f', item)
    ensures Relaxing(net, f', start, rank[item.node := |f.visited|], item.node)
  {
    VisitKeeps(net, f, f', start, rank, item);
    SameRelaxed(net, f, f', {}, {item.node});
    assert Ordered(net, f);
  }

  /** The first node visited is the start. */
  lemma StartFirst(net: Net, f: Front, start: string, target: string, rank: map<string, nat>, item: Item)
    requires Exploring(net, f, start, target, rank) && item in f.pq && item.node !in f.visited
    requires forall it :: it in f.pq ==> item.dist <= it.dist
    ensures item.node == start || start in f.visited
  {
    if start !in f.visited { assert Tracked(net, f, start, item.node); }
  }

  lemma SettledAtTarget(net: Net, f: Front, start: string, target: string, rank: map<string, nat>)
    requires Relaxing(net, f, start, rank, target)
    ensures Settled(net, f, start, target) && f.dist[target] < INF
  {
    assert Ordered(net, f);
  }

  lemma SettledWhenEmpty(net: Net, f: Front, start: string, target: string, rank: map<string, nat>)
    requires Exploring(net, f, start, target, rank) && f.pq == [] && target in net.nodes
    ensures Settled(net, f, start, target) && f.dist[target] == INF
  {
    assert Queued(net, f, target);
    forall v | v in net.nodes && v !in f.visited ensures f.dist[v] == INF {
      assert Queued(net, f, v);
    }
  }

  /** Runs until the target is visited or the queue is empty. */
  method Explore(nodes: set<string>, outEdges: map<string, seq<Edge>>, start: string, target: string, ghost net: Net)
    returns (f: Front, ghost rank: map<string, nat>)
    requires NetOk(net) && nodes == net.nodes && start in nodes && target in nodes
    requires outEdges.Keys == nodes && forall u :: u in nodes ==> Lists(net, outEdges[u], u, Out)
    ensures Settled(net, f, start, target)
    ensures f.dist[target] < INF ==> Inv(net, f, start, rank) && target in f.visited && start in f.visited
  {
    f := Begin(nodes, start, net);
    rank := map[];
    while f.pq != []
      invariant Exploring(net, f, start, target, rank)
      decreases |nodes - f.visited|, |f.pq|
    {
      var current, rest := PopMin(f.pq);
      var u := current.node;
      if u in f.visited {
        DropKeeps(net, f, f.(pq := rest), start, rank, current);
        SameRelaxed(net, f, f.(pq := rest), {}, {});
        f := f.(pq := rest);
        continue;
      }
      StartFirst(net, f, start, target, rank, current);
      Visit(net, f, f.(pq := rest, visited := f.visited + {u}), start, target, rank, current);
      ghost var before := f.visited;
      rank := rank[u := |f.visited|];
      f := f.(pq := rest, visited := f.visited + {u});
      if u == target {
        SettledAtTarget(net, f, start, target, rank);
        return;
      }
      f := RelaxAll(outEdges[u], u, f, net, start, rank);
      Fewer(nodes, before, f.visited, u);
    }
    SettledWhenEmpty(net, f, start, target, rank);
  }

  lemma Fewer(nodes: set<string>, before: set<string>, after: set<string>, u: string)
    requires after == before + {u} && u in nodes && u !in before
    ensures |nodes - after| < |nodes - before|
  {
    assert nodes - before == (nodes - after) + {u};
  }

  method ShortestPath(g: Graph, start: string, target: string) returns (r: Outcome)
    requires g.Valid()
    ensures start !in g.nodes ==> r == Failed(InvalidStartNode)
    ensures start in g.nodes && target !in g.nodes ==> r == Failed(InvalidEndNode)
    ensures start in g.nodes && target in g.nodes ==>
      match r
      case Found(PathResult(path, weight)) =>
        && Walk(g.net, path, start, target) && Length(g.net, path) == weight < INF
        && forall p :: Walk(g.net, p, start, target) ==> weight <= Length(g.net, p)
      case Failed(error) => error == NoPath && forall p :: Walk(g.net, p, start, target) ==> INF <= Length(g.net, p)
  {
    if start !in g.nodes { return Failed(InvalidStartNode); }
    if target !in g.nodes { return Failed(InvalidEndNode); }
    ghost var net := g.net;
    if start == target {
      forall p | Walk(net, p, start, target) ensures 0.0 <= Length(net, p) { LengthNotNegative(net, p); }
      return Found(PathResult([start], 0.0));
    }
    var f, rank := Explore(g.nodes, g.outEdges, start, target, net);
    forall p | Walk(net, p, start, target) ensures f.dist[target] <= Length(net, p) {
      NoShortcut(net, f, start, target, p, target);
    }
    if f.dist[target] == INF { return Failed(NoPath); }
    var path := WalkBack(f, start, target, net, rank);
    r := Found(PathResult(path, f.dist[target]));
  }

  lemma {:induction false} LengthNotNegative(net: Net, p: seq<string>)
    requires NetOk(net) && forall i :: 0 <= i < |p| - 1 ==> (p[i], p[i + 1]) in net.edges
    ensures Length(net, p) >= 0.0
    decreases |p|
  {
    if |p| > 1 {
      assert (p[|p| - 2], p[|p| - 2 + 1]) in net.edges;
      LengthNotNegative(net, p[..|p| - 1]);
    }
  }

  /** The one edge of this graph weighs as much as the sentinel. */
  const FAR: Net := Net({"a", "b"}, map[("a", "b") := Edge("a", "b", INF, "")])

  lemma FarAway(p: seq<string>)
    requires Walk(FAR, p, "a", "b")
    ensures INF <= Length(FAR, p)
  {
    assert |p| > 1 && (p[|p| - 2], p[|p| - 2 + 1]) in FAR.edges;
    LengthNotNegative(FAR, p[..|p| - 1]);
  }

  method FarGraph() returns (g: Graph)
    ensures fresh(g) && g.Valid() && g.net == FAR
  {
    hide Stores, NetOk;
    g := new Graph();
    var err := g.AddNode("a");
    err := g.AddNode("b");
    err := g.AddEdge("a", "b", INF, "");
  }

  /** A target one edge away is reported as having no path. */
  method ReachableButNoPath() returns (r: Outcome)
    ensures r == Failed(NoPath) && Walk(FAR, ["a", "b"], "a", "b")
  {
    hide Stores, NetOk;
    var g := FarGraph();
    r := ShortestPath(g, "a", "b");
    if r.Found? { FarAway(r.result.nodes); }
  }
}
