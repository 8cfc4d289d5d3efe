/** BFS of internal/graphdb: exactly the nodes within maxDepth hops, each once, nearest first. */
module Traversal {
  import opened Graph

  /** The nodes at most k hops away from start. */
  ghost function Ball(net: Net, start: string, k: nat): set<string> {
    if k == 0 then {start}
    else Ball(net, start, k - 1) + (set e | e in net.edges.Keys && e.0 in Ball(net, start, k - 1) :: e.1)
  }

  lemma {:induction false} BallGrows(net: Net, start: string, j: nat, k: nat)
    requires j <= k
    ensures Ball(net, start, j) <= Ball(net, start, k)
    decreases k - j
  {
    if j < k { BallGrows(net, start, j, k - 1); }
  }

  type Depths = map<string, nat>

  /** No two entries are equal, and their depths do not fall. */
  ghost predicate InOrder(result: seq<string>, depth: Depths) {
    && (forall i :: 0 <= i < |result| ==> result[i] in depth)
    && (forall i, j :: 0 <= i < j < |result| ==> result[i] != result[j] && depth[result[i]] <= depth[result[j]])
  }

  ghost predicate Placed(net: Net, start: string, maxDepth: int, result: seq<string>, depth: Depths, d: int, v: string) {
    v in depth && v in result && depth[v] <= d + 1 && depth[v] <= maxDepth && v in Ball(net, start, depth[v])
  }

  /** What has been found while nodes of depth d are expanded. */
  ghost predicate Found(net: Net, start: string, maxDepth: int, result: seq<string>, depth: Depths, d: int) {
    && InOrder(result, depth) && start in depth && depth[start] == 0
    && (forall v {:trigger Placed(net, start, maxDepth, result, depth, d, v)} ::
          v in depth ==> Placed(net, start, maxDepth, result, depth, d, v))
  }

  /** Everything one hop from u has been found, at most one deeper. */
  ghost predicate Expanded(net: Net, depth: Depths, u: string) {
    u in depth && forall k {:trigger net.edges[k]} :: k in net.edges && k.0 == u ==> k.1 in depth && depth[k.1] <= depth[u] + 1
  }

  ghost predicate AllExpanded(net: Net, maxDepth: int, result: seq<string>, depth: Depths, h: int) {
    forall i {:trigger Expanded(net, depth, result[i])} :: 0 <= i < h && i < |result| && result[i] in depth && depth[result[i]] < maxDepth ==>
      Expanded(net, depth, result[i])
  }

  /** The queue is the part of the result that is still to be expanded. */
  ghost predicate Pending(result: seq<string>, depth: Depths, queue: seq<(string, int)>, h: int) {
    && 0 <= h && h + |queue| == |result|
    && (forall i :: 0 <= i < |queue| ==> result[h + i] in depth && queue[i] == (result[h + i], depth[result[h + i]]))
  }

  lemma {:induction false} FoundIsBall(net: Net, start: string, maxDepth: int, result: seq<string>, depth: Depths, d: int, k: nat, v: string)
    requires Found(net, start, maxDepth, result, depth, d) && AllExpanded(net, maxDepth, result, depth, |result|) && k <= maxDepth
    ensures v in Ball(net, start, k) <==> v in depth && depth[v] <= k
    decreases k
  {
    if v in depth && depth[v] <= k {
      assert Placed(net, start, maxDepth, result, depth, d, v);
      BallGrows(net, start, depth[v], k);
    }
    if v in Ball(net, start, k) && k > 0 {
      if v in Ball(net, start, k - 1) {
        FoundIsBall(net, start, maxDepth, result, depth, d, k - 1, v);
      } else {
        var e :| e in net.edges.Keys && e.0 in Ball(net, start, k - 1) && e.1 == v;
        FoundIsBall(net, start, maxDepth, result, depth, d, k - 1, e.0);
        assert Placed(net, start, maxDepth, result, depth, d, e.0);
        var i :| 0 <= i < |result| && result[i] == e.0;
        assert Expanded(net, depth, result[i]);
        assert net.edges[e] == net.edges[e];
      }
    }
  }

  /** The search while the first h entries have been expanded and the next one, u at depth d,
      has left the queue. */
  ghost predicate Expanding(net: Net, start: string, maxDepth: int, visited: set<string>, result: seq<string>,
                            queue: seq<(string, int)>, depth: Depths, h: int, u: string, d: int) {
    && visited == depth.Keys && visited <= net.nodes && 0 <= h < |result| && result[h] == u && u in depth && depth[u] == d
    && Found(net, start, maxDepth, result, depth, d)
    && AllExpanded(net, maxDepth, result, depth, h)
    && Pending(result, depth, queue, h + 1)
  }

  /** The search between two nodes. */
  ghost predicate Sweeping(net: Net, start: string, maxDepth: int, visited: set<string>, result: seq<string>,
                           queue: seq<(string, int)>, depth: Depths, h: int, d: int) {
    && visited == depth.Keys && visited <= net.nodes
    && Found(net, start, maxDepth, result, depth, d)
    && AllExpanded(net, maxDepth, result, depth, h)
    && Pending(result, depth, queue, h) && (queue != [] ==> d <= queue[0].1)
  }

  lemma TakeNext(net: Net, start: string, maxDepth: int, visited: set<string>, result: seq<string>,
                 queue: seq<(string, int)>, depth: Depths, h: int, d: int)
    requires Sweeping(net, start, maxDepth, visited, result, queue, depth, h, d) && queue != []
    ensures Expanding(net, start, maxDepth, visited, result, queue[1..], depth, h, queue[0].0, queue[0].1)
  {
    var rest := queue[1..];
    assert queue[0] == (result[h], depth[result[h]]);
    forall v | v in depth ensures Placed(net, start, maxDepth, result, depth, queue[0].1, v) {
      assert Placed(net, start, maxDepth, result, depth, d, v);
    }
    forall i | 0 <= i < |rest|
      ensures result[h + 1 + i] in depth && rest[i] == (result[h + 1 + i], depth[result[h + 1 + i]])
    {
      assert rest[i] == queue[i + 1] && h + (i + 1) == h + 1 + i;
    }
  }

  lemma MoveOn(net: Net, start: string, maxDepth: int, visited: set<string>, result: seq<string>,
               queue: seq<(string, int)>, depth: Depths, h: int, u: string, d: int)
    requires Expanding(net, start, maxDepth, visited, result, queue, depth, h, u, d)
    requires d < maxDepth ==> Expanded(net, depth, u)
    ensures Sweeping(net, start, maxDepth, visited, result, queue, depth, h + 1, d)
  {
    if queue != [] { assert queue[0] == (result[h + 1 + 0], depth[result[h + 1 + 0]]); }
  }

  /** A new node one hop from u, which is being expanded. */
  lemma DiscoverFound(net: Net, start: string, maxDepth: int, result: seq<string>, depth: Depths, u: string, v: string)
    requires u in depth && Found(net, start, maxDepth, result, depth, depth[u]) && depth[u] < maxDepth
    requires (u, v) in net.edges && v !in depth
    ensures Found(net, start, maxDepth, result + [v], depth[v := depth[u] + 1], depth[u])
  {
    var result', depth' := result + [v], depth[v := depth[u] + 1];
    assert v in Ball(net, start, depth[u] + 1) by {
      assert Placed(net, start, maxDepth, result, depth, depth[u], u);
      assert (u, v) in net.edges.Keys;
    }
    forall i, j | 0 <= i < j < |result'|
      ensures result'[i] != result'[j] && depth'[result'[i]] <= depth'[result'[j]]
    {
      if j == |result| { assert Placed(net, start, maxDepth, result, depth, depth[u], result[i]); }
    }
    forall x | x in depth' ensures Placed(net, start, maxDepth, result', depth', depth[u], x) {
      if x == v { assert result'[|result|] == v; } else { assert Placed(net, start, maxDepth, result, depth, depth[u], x); }
    }
  }

  lemma DiscoverKeeps(net: Net, maxDepth: int, result: seq<string>, depth: Depths, h: int, v: string, d: nat)
    requires AllExpanded(net, maxDepth, result, depth, h) && h <= |result| && InOrder(result, depth) && v !in depth
    ensures AllExpanded(net, maxDepth, result + [v], depth[v := d], h)
  {
    var result', depth' := result + [v], depth[v := d];
    forall i | 0 <= i < h && i < |result'| && result'[i] in depth' && depth'[result'[i]] < maxDepth
      ensures Expanded(net, depth', result'[i])
    {
      assert result'[i] == result[i] && Expanded(net, depth, result[i]);
    }
  }

  lemma Discover(net: Net, start: string, maxDepth: int, visited: set<string>, result: seq<string>,
                 queue: seq<(string, int)>, depth: Depths, h: int, u: string, d: int, v: string)
    requires Expanding(net, start, maxDepth, visited, result, queue, depth, h, u, d) && d < maxDepth
    requires NetOk(net) && (u, v) in net.edges && v !in visited
    ensures d >= 0
    ensures Expanding(net, start, maxDepth, visited + {v}, result + [v], queue + [(v, d + 1)], depth[v := d + 1], h, u, d)
  {
    DiscoverFound(net, start, maxDepth, result, depth, u, v);
    DiscoverKeeps(net, maxDepth, result, depth, h, v, d + 1);
  }

  /** One node's out-edges are followed. */
  method Expand(edges: seq<Edge>, u: string, d: nat, visited0: set<string>, result0: seq<string>, queue0: seq<(string, int)>,
                ghost depth0: Depths, ghost net: Net, ghost start: string, ghost maxDepth: int, ghost h: int)
    returns (visited: set<string>, result: seq<string>, queue: seq<(string, int)>, ghost depth: Depths)
    requires NetOk(net) && Lists(net, edges, u, Out) && d < maxDepth
    requires Expanding(net, start, maxDepth, visited0, result0, queue0, depth0, h, u, d)
    ensures Expanding(net, start, maxDepth, visited, result, queue, depth, h, u, d) && Expanded(net, depth, u)
    ensures visited0 <= visited && (visited == visited0 ==> queue == queue0)
  {
    visited, result, queue, depth := visited0, result0, queue0, depth0;
    for i := 0 to |edges|
      invariant Expanding(net, start, maxDepth, visited, result, queue, depth, h, u, d)
      invariant visited0 <= visited && (visited == visited0 ==> queue == queue0)
      invariant forall j :: 0 <= j < i ==> edges[j].to in visited
    {
      var v := edges[i].to;
      assert KeyOf(edges[i]) in net.edges;
      if v !in visited {
        Discover(net, start, maxDepth, visited, result, queue, depth, h, u, d, v);
        visited, result, queue, depth := visited + {v}, result + [v], queue + [(v, d + 1)], depth[v := d + 1];
      }
    }
    AllFollowed(net, start, maxDepth, result, depth, edges, u);
  }

  lemma AllFollowed(net: Net, start: string, maxDepth: int, result: seq<string>, depth: Depths, edges: seq<Edge>, u: string)
    requires NetOk(net) && Lists(net, edges, u, Out) && u in depth && Found(net, start, maxDepth, result, depth, depth[u])
    requires forall j :: 0 <= j < |edges| ==> edges[j].to in depth.Keys
    ensures Expanded(net, depth, u)
  {
    forall k | k in net.edges && k.0 == u ensures k.1 in depth && depth[k.1] <= depth[u] + 1 {
      assert net.edges[k] in edges;
      var j :| 0 <= j < |edges| && edges[j] == net.edges[k];
      assert Placed(net, start, maxDepth, result, depth, depth[u], k.1);
    }
  }

  lemma AtStart(net: Net, start: string, maxDepth: int)
    requires start in net.nodes && maxDepth > 0
    ensures Sweeping(net, start, maxDepth, {start}, [start], [(start, 0)], map[start := 0], 0, 0)
  {
    assert [start][0] == start;
  }

  lemma AtEnd(net: Net, start: string, maxDepth: int, visited: set<string>, result: seq<string>, depth: Depths, h: int, d: int)
    requires Sweeping(net, start, maxDepth, visited, result, [], depth, h, d) && maxDepth > 0
    ensures InOrder(result, depth) && forall v :: v in result <==> v in Ball(net, start, maxDepth)
    ensures forall v, k: nat :: k <= maxDepth ==> (v in Ball(net, start, k) <==> v in depth && depth[v] <= k)
  {
    forall v, k: nat | k <= maxDepth ensures v in Ball(net, start, k) <==> v in depth && depth[v] <= k {
      FoundIsBall(net, start, maxDepth, result, depth, d, k, v);
    }
    forall v ensures v in result <==> v in Ball(net, start, maxDepth) {
      FoundIsBall(net, start, maxDepth, result, depth, d, maxDepth, v);
      if v in depth { assert Placed(net, start, maxDepth, result, depth, d, v); }
    }
  }

  datatype Result = Reached(nodes: seq<string>) | Failed(error: Error)

  /** depth is the exact hop distance of every node found. */
  method BFS(g: Graph, start: string, maxDepth: int) returns (r: Result, ghost depth: Depths)
    requires g.Valid()
    ensures maxDepth <= 0 ==> r == Failed(MaxDepthNonPositive)
    ensures maxDepth > 0 && start !in g.nodes ==> r == Failed(NodeNotFound)
    ensures maxDepth > 0 && start in g.nodes ==> r.Reached? && InOrder(r.nodes, depth)
    ensures r.Reached? ==> forall v :: v in r.nodes <==> v in Ball(g.net, start, maxDepth)
    ensures r.Reached? ==> forall v, k: nat :: k <= maxDepth ==> (v in Ball(g.net, start, k) <==> v in depth && depth[v] <= k)
  {
    depth := map[];
    if maxDepth <= 0 { return Failed(MaxDepthNonPositive), depth; }
    if start !in g.nodes { return Failed(NodeNotFound), depth; }
    depth := map[start := 0];
    var visited, result, queue := {start}, [start], [(start, 0)];
    ghost var net, h, d := g.net, 0, 0;
    AtStart(net, start, maxDepth);
    while queue != []
      invariant Sweeping(net, start, maxDepth, visited, result, queue, depth, h, d)
      decreases net.nodes - visited, |queue|
    {
      var (u, du) := queue[0];
      TakeNext(net, start, maxDepth, visited, result, queue, depth, h, d);
      queue, d := queue[1..], du;
      if du < maxDepth {
        assert Lists(net, g.outEdges[u], u, Out);
        visited, result, queue, depth :=
          Expand(g.outEdges[u], u, du, visited, result, queue, depth, net, start, maxDepth, h);
      }
      MoveOn(net, start, maxDepth, visited, result, queue, depth, h, u, du);
      h := h + 1;
    }
    AtEnd(net, start, maxDepth, visited, result, depth, h, d);
    return Reached(result), depth;
  }
}
