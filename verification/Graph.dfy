/** The adjacency lists of internal/graphdb: every edge is stored twice, with its source and
    with its target. */
module Graph {

  datatype Edge = Edge(from: string, to: string, weight: real, tag: string)

  datatype Error = NoError | NodeNotFound | NodeExists | EdgeNotFound | EdgeExists | SelfLoop | NegativeWeight
                 | InvalidStartNode | InvalidEndNode | NoPath | EmptyID | MaxDepthNonPositive

  /** The graph the lists stand for: at most one edge from one node to another. */
  datatype Net = Net(nodes: set<string>, edges: map<(string, string), Edge>)

  function KeyOf(e: Edge): (string, string) { (e.from, e.to) }

  ghost predicate NetOk(net: Net) {
    forall k :: k in net.edges ==>
      && KeyOf(net.edges[k]) == k && k.0 != k.1
      && k.0 in net.nodes && k.1 in net.nodes && net.edges[k].weight >= 0.0
  }

  // One side of the store: the lists of edges out of each node, or into each node.

  datatype Side = Out | In

  function Near(e: Edge, side: Side): string { if side.Out? then e.from else e.to }

  function Far(e: Edge, side: Side): string { if side.Out? then e.to else e.from }

  function Between(near: string, far: string, side: Side): (string, string) {
    if side.Out? then (near, far) else (far, near)
  }

  /** The list of u holds exactly the edges that have u at the near end, each once. */
  ghost predicate Lists(net: Net, edges: seq<Edge>, u: string, side: Side) {
    && (forall i :: 0 <= i < |edges| ==>
          Near(edges[i], side) == u && KeyOf(edges[i]) in net.edges && net.edges[KeyOf(edges[i])] == edges[i])
    && (forall k {:trigger net.edges[k]} :: k in net.edges && Near(net.edges[k], side) == u ==> net.edges[k] in edges)
    && (forall i, j :: 0 <= i < j < |edges| ==> Far(edges[i], side) != Far(edges[j], side))
  }

  ghost predicate Stores(net: Net, lists: map<string, seq<Edge>>, side: Side) {
    && lists.Keys == net.nodes
    && (forall k :: k in net.edges ==> KeyOf(net.edges[k]) == k)
    && (forall u {:trigger Lists(net, lists[u], u, side)} :: u in lists ==> Lists(net, lists[u], u, side))
  }

  /** The list without its first edge to the given far end. */
  function Without(edges: seq<Edge>, far: string, side: Side): (r: seq<Edge>) {
    if edges == [] then []
    else if Far(edges[0], side) == far then edges[1..]
    else [edges[0]] + Without(edges[1..], far, side)
  }

  lemma {:induction false} WithoutSplits(edges: seq<Edge>, i: int, far: string, side: Side)
    requires 0 <= i <= |edges| && forall j :: 0 <= j < i ==> Far(edges[j], side) != far
    ensures Without(edges, far, side) == edges[..i] + Without(edges[i..], far, side)
    decreases i
  {
    if i > 0 {
      WithoutSplits(edges[1..], i - 1, far, side);
      assert edges[1..][i - 1..] == edges[i..];
      assert edges[..i] == [edges[0]] + edges[1..][..i - 1];
    } else {
      assert edges[0..] == edges;
    }
  }

  /** removeFromOutEdges and removeFromInEdges. */
  method DropFirst(edges: seq<Edge>, far: string, side: Side) returns (r: seq<Edge>, found: bool)
    ensures r == Without(edges, far, side)
    ensures found <==> exists i :: 0 <= i < |edges| && Far(edges[i], side) == far
  {
    for i := 0 to |edges|
      invariant forall j :: 0 <= j < i ==> Far(edges[j], side) != far
    {
      if Far(edges[i], side) == far {
        WithoutSplits(edges, i, far, side);
        assert edges[i..][1..] == edges[i + 1..];
        return edges[..i] + edges[i + 1..], true;
      }
    }
    WithoutSplits(edges, |edges|, far, side);
    return edges, false;
  }

  lemma {:induction false} WithoutHas(edges: seq<Edge>, far: string, side: Side, e: Edge)
    requires forall i, j :: 0 <= i < j < |edges| ==> Far(edges[i], side) != Far(edges[j], side)
    ensures e in Without(edges, far, side) <==> e in edges && Far(e, side) != far
    decreases |edges|
  {
    if edges != [] {
      var rest := edges[1..];
      assert forall i, j :: 0 <= i < j < |rest| ==> Far(rest[i], side) != Far(rest[j], side);
      assert e in edges <==> e == edges[0] || e in rest;
      if Far(edges[0], side) == far {
        assert forall i :: 0 <= i < |rest| ==> rest[i] == edges[i + 1];
      } else {
        WithoutHas(rest, far, side, e);
      }
    }
  }

  lemma {:induction false} WithoutDistinct(edges: seq<Edge>, far: string, side: Side)
    requires forall i, j :: 0 <= i < j < |edges| ==> Far(edges[i], side) != Far(edges[j], side)
    ensures var r := Without(edges, far, side); forall i, j :: 0 <= i < j < |r| ==> Far(r[i], side) != Far(r[j], side)
    decreases |edges|
  {
    if edges != [] && Far(edges[0], side) != far {
      var rest := edges[1..];
      assert forall i, j :: 0 <= i < j < |rest| ==> Far(rest[i], side) != Far(rest[j], side);
      WithoutDistinct(rest, far, side);
      var w := Without(rest, far, side);
      forall i | 0 <= i < |w| ensures Far(w[i], side) != Far(edges[0], side) {
        WithoutHas(rest, far, side, w[i]);
        var j :| 0 <= j < |rest| && rest[j] == w[i];
        assert rest[j] == edges[j + 1];
      }
    }
  }

  ghost function Cut(net: Net, key: (string, string)): Net { net.(edges := net.edges - {key}) }

  lemma CutList(net: Net, edges: seq<Edge>, u: string, far: string, side: Side)
    requires Lists(net, edges, u, side) && forall k :: k in net.edges ==> KeyOf(net.edges[k]) == k
    ensures Lists(Cut(net, Between(u, far, side)), Without(edges, far, side), u, side)
  {
    var r, net' := Without(edges, far, side), Cut(net, Between(u, far, side));
    WithoutDistinct(edges, far, side);
    forall i | 0 <= i < |r|
      ensures Near(r[i], side) == u && KeyOf(r[i]) in net'.edges && net'.edges[KeyOf(r[i])] == r[i]
    {
      WithoutHas(edges, far, side, r[i]);
      var j :| 0 <= j < |edges| && edges[j] == r[i];
    }
    forall k | k in net'.edges && Near(net'.edges[k], side) == u ensures net'.edges[k] in r {
      assert net.edges[k] in edges;
      WithoutHas(edges, far, side, net.edges[k]);
    }
  }

  lemma OtherList(net: Net, edges: seq<Edge>, u: string, near: string, far: string, side: Side)
    requires Lists(net, edges, u, side) && u != near && forall k :: k in net.edges ==> KeyOf(net.edges[k]) == k
    ensures Lists(Cut(net, Between(near, far, side)), edges, u, side)
  {
    var net' := Cut(net, Between(near, far, side));
    forall k | k in net'.edges && Near(net'.edges[k], side) == u ensures net'.edges[k] in edges {
      assert net.edges[k] in edges;
    }
  }

  /** Dropping one edge on one side. */
  lemma CutStores(net: Net, lists: map<string, seq<Edge>>, near: string, far: string, side: Side)
    requires Stores(net, lists, side) && near in lists
    ensures Stores(Cut(net, Between(near, far, side)), lists[near := Without(lists[near], far, side)], side)
  {
    var net', lists' := Cut(net, Between(near, far, side)), lists[near := Without(lists[near], far, side)];
    forall u | u in lists' ensures Lists(net', lists'[u], u, side) {
      assert Lists(net, lists[u], u, side);
      if u == near { CutList(net, lists[u], u, far, side); } else { OtherList(net, lists[u], u, near, far, side); }
    }
  }

  ghost function Join(net: Net, e: Edge): Net { net.(edges := net.edges[KeyOf(e) := e]) }

  lemma JoinList(net: Net, edges: seq<Edge>, u: string, e: Edge, side: Side)
    requires Lists(net, edges, u, side) && KeyOf(e) !in net.edges && forall k :: k in net.edges ==> KeyOf(net.edges[k]) == k
    ensures Lists(Join(net, e), if u == Near(e, side) then edges + [e] else edges, u, side)
  {
    var net', r := Join(net, e), if u == Near(e, side) then edges + [e] else edges;
    forall k | k in net'.edges && Near(net'.edges[k], side) == u ensures net'.edges[k] in r {
      if k == KeyOf(e) { assert r[|edges|] == e; } else { assert net.edges[k] in edges; }
    }
  }

  /** Adding one edge on one side. */
  lemma JoinStores(net: Net, lists: map<string, seq<Edge>>, e: Edge, side: Side)
    requires Stores(net, lists, side) && Near(e, side) in lists && KeyOf(e) !in net.edges
    ensures Stores(Join(net, e), lists[Near(e, side) := lists[Near(e, side)] + [e]], side)
  {
    var net', lists' := Join(net, e), lists[Near(e, side) := lists[Near(e, side)] + [e]];
    forall u | u in lists' ensures Lists(net', lists'[u], u, side) {
      assert Lists(net, lists[u], u, side);
      JoinList(net, lists[u], u, e, side);
    }
  }

  ghost function KeysOf(edges: seq<Edge>): set<(string, string)> { set i | 0 <= i < |edges| :: KeyOf(edges[i]) }

  ghost function CutAll(net: Net, edges: seq<Edge>): Net { net.(edges := net.edges - KeysOf(edges)) }

  lemma CutNext(net: Net, edges: seq<Edge>, i: int)
    requires 0 <= i < |edges|
    ensures CutAll(net, edges[..i + 1]) == Cut(CutAll(net, edges[..i]), KeyOf(edges[i]))
  {
    var a, b := edges[..i], edges[..i + 1];
    assert forall j :: 0 <= j < i ==> a[j] == b[j];
    assert KeysOf(b) == KeysOf(a) + {KeyOf(edges[i])} by {
      forall k | k in KeysOf(a) ensures k in KeysOf(b) { var j :| 0 <= j < |a| && KeyOf(a[j]) == k; assert b[j] == a[j]; }
      assert b[i] == edges[i];
    }
    assert CutAll(net, b).edges == Cut(CutAll(net, a), KeyOf(edges[i])).edges;
  }

  lemma CutNone(net: Net)
    ensures CutAll(net, []) == net
  {
    assert CutAll(net, []).edges == net.edges;
  }

  ghost function DropSide(net: Net, id: string, edges: seq<Edge>): Net { Net(net.nodes - {id}, net.edges - KeysOf(edges)) }

  /** Dropping a whole list, once nothing else mentions it. */
  lemma DropStores(net: Net, lists: map<string, seq<Edge>>, id: string, side: Side)
    requires Stores(net, lists, side) && id in lists
    ensures Stores(DropSide(net, id, lists[id]), lists - {id}, side)
  {
    var net', lists' := DropSide(net, id, lists[id]), lists - {id};
    assert Lists(net, lists[id], id, side);
    forall u | u in lists' ensures Lists(net', lists'[u], u, side) {
      assert Lists(net, lists[u], u, side);
      DropList(net, lists[id], lists[u], id, u, side);
    }
  }

  lemma DropList(net: Net, gone: seq<Edge>, edges: seq<Edge>, id: string, u: string, side: Side)
    requires Lists(net, gone, id, side) && Lists(net, edges, u, side) && u != id
    requires forall k :: k in net.edges ==> KeyOf(net.edges[k]) == k
    ensures Lists(DropSide(net, id, gone), edges, u, side)
  {
    var net' := DropSide(net, id, gone);
    forall i, j | 0 <= i < |edges| && 0 <= j < |gone| ensures KeyOf(edges[i]) != KeyOf(gone[j]) {
      assert Near(edges[i], side) == u && Near(gone[j], side) == id;
    }
    forall k | k in net'.edges && Near(net'.edges[k], side) == u ensures net'.edges[k] in edges {
      assert net.edges[k] in edges;
    }
  }

  ghost function WithoutNode(net: Net, id: string): Net {
    Net(net.nodes - {id}, map k | k in net.edges && k.0 != id && k.1 != id :: net.edges[k])
  }

  /** Both lists of a node together name every edge at it. */
  lemma BothLists(net: Net, outs: seq<Edge>, ins: seq<Edge>, id: string)
    requires NetOk(net) && Lists(net, outs, id, Out) && Lists(net, ins, id, In)
    ensures DropSide(CutAll(net, outs), id, ins) == WithoutNode(net, id) == CutAll(DropSide(net, id, outs), ins)
  {
    forall k | k in net.edges
      ensures k.0 == id <==> k in KeysOf(outs)
      ensures k.1 == id <==> k in KeysOf(ins)
    {
      if k.0 == id { assert net.edges[k] in outs; var i :| 0 <= i < |outs| && outs[i] == net.edges[k]; }
      if k.1 == id { assert net.edges[k] in ins; var i :| 0 <= i < |ins| && ins[i] == net.edges[k]; }
    }
    assert DropSide(CutAll(net, outs), id, ins).edges == WithoutNode(net, id).edges;
    assert CutAll(DropSide(net, id, outs), ins).edges == WithoutNode(net, id).edges;
  }

  /** The far ends of a node's list are other nodes. */
  lemma FarEnds(net: Net, edges: seq<Edge>, id: string, side: Side, i: int)
    requires NetOk(net) && Lists(net, edges, id, side) && 0 <= i < |edges|
    ensures Far(edges[i], side) in net.nodes && Far(edges[i], side) != id && Near(edges[i], side) == id
  {
    assert KeyOf(edges[i]) in net.edges;
  }

  class Graph {
    var nodes: set<string>
    var outEdges: map<string, seq<Edge>>
    var inEdges: map<string, seq<Edge>>
    ghost var net: Net

    /** The two sides store one and the same graph. */
    ghost predicate Valid()
      reads this
    {
      NetOk(net) && nodes == net.nodes && Stores(net, outEdges, Out) && Stores(net, inEdges, In)
    }

    constructor ()
      ensures Valid() && net == Net({}, map[])
    {
      nodes, outEdges, inEdges, net := {}, map[], map[], Net({}, map[]);
    }

    method AddNode(id: string) returns (err: Error)
      requires Valid()
      modifies this
      ensures Valid()
      ensures err == if id == "" then EmptyID else if id in old(nodes) then NodeExists else NoError
      ensures net == if err == NoError then Net(old(net.nodes) + {id}, old(net.edges)) else old(net)
    {
      if id == "" { return EmptyID; }
      if id in nodes { return NodeExists; }
      AddNodeStores(net, outEdges, id, Out);
      AddNodeStores(net, inEdges, id, In);
      nodes := nodes + {id};
      outEdges, inEdges := outEdges[id := []], inEdges[id := []];
      net := Net(net.nodes + {id}, net.edges);
      return NoError;
    }

    method AddEdge(from: string, to: string, weight: real, tag: string) returns (err: Error)
      requires Valid()
      modifies this
      ensures Valid() && nodes == old(nodes)
      ensures err == (if from == to then SelfLoop else if weight < 0.0 then NegativeWeight
                      else if from !in nodes then InvalidStartNode else if to !in nodes then InvalidEndNode
                      else if (from, to) in old(net.edges) then EdgeExists else NoError)
      ensures net == if err == NoError then Join(old(net), Edge(from, to, weight, tag)) else old(net)
    {
      hide Lists, Stores, NetOk, Join;
      if from == to { return SelfLoop; }
      if weight < 0.0 { return NegativeWeight; }
      if from !in nodes { return InvalidStartNode; }
      if to !in nodes { return InvalidEndNode; }
      var found := HasEdge(from, to);
      if found { return EdgeExists; }
      var edge := Edge(from, to, weight, tag);
      ListsOf(net, outEdges, from, Out);
      ListsOf(net, inEdges, to, In);
      JoinOk(net, edge);
      JoinStores(net, outEdges, edge, Out);
      JoinStores(net, inEdges, edge, In);
      outEdges := outEdges[from := outEdges[from] + [edge]];
      inEdges := inEdges[to := inEdges[to] + [edge]];
      net := Join(net, edge);
      return NoError;
    }

    method HasEdge(from: string, to: string) returns (found: bool)
      requires Valid()
      ensures found <==> (from, to) in net.edges
    {
      if from !in outEdges { return false; }
      assert Lists(net, outEdges[from], from, Out);
      for i := 0 to |outEdges[from]|
        invariant forall j :: 0 <= j < i ==> outEdges[from][j].to != to
      {
        if outEdges[from][i].to == to { return true; }
      }
      Listed(net, outEdges[from], from, to);
      return false;
    }

    method RemoveEdge(from: string, to: string) returns (err: Error)
      requires Valid()
      modifies this
      ensures Valid() && nodes == old(nodes)
      ensures err == (if from !in nodes then InvalidStartNode else if to !in nodes then InvalidEndNode
                      else if (from, to) !in old(net.edges) then EdgeNotFound else NoError)
      ensures net == if err == NoError then Cut(old(net), (from, to)) else old(net)
    {
      hide Lists, Stores, NetOk, Cut, Without;
      if from !in nodes { return InvalidStartNode; }
      if to !in nodes { return InvalidEndNode; }
      ListsOf(net, outEdges, from, Out);
      ListsOf(net, inEdges, to, In);
      CutOk(net, (from, to));
      var outs, found := DropFirst(outEdges[from], to, Out);
      Listed(net, outEdges[from], from, to);
      if !found { return EdgeNotFound; }
      CutStores(net, outEdges, from, to, Out);
      CutStores(net, inEdges, to, from, In);
      outEdges := outEdges[from := outs];
      var ins, _ := DropFirst(inEdges[to], from, In);
      inEdges := inEdges[to := ins];
      net := Cut(net, (from, to));
      return NoError;
    }

    method RemoveNode(id: string) returns (err: Error)
      requires Valid()
      modifies this
      ensures Valid()
      ensures err == if id in old(nodes) then NoError else NodeNotFound
      ensures net == if err == NoError then WithoutNode(old(net), id) else old(net)
    {
      if id !in nodes { return NodeNotFound; }
      assert Lists(net, outEdges[id], id, Out) && Lists(net, inEdges[id], id, In);
      DropStores(net, outEdges, id, Out);
      var in' := Unlink(net, net, inEdges, outEdges[id], id, In);
      var out' := Unlink(net, DropSide(net, id, outEdges[id]), outEdges - {id}, inEdges[id], id, Out);
      NodeGone(net, outEdges[id], inEdges[id], in', out', id);
      outEdges, inEdges, nodes := out', in' - {id}, nodes - {id};
      net := WithoutNode(net, id);
      return NoError;
    }
  }

  lemma NodeGone(net: Net, outs: seq<Edge>, ins: seq<Edge>, in': map<string, seq<Edge>>, out': map<string, seq<Edge>>, id: string)
    requires NetOk(net) && Lists(net, outs, id, Out) && Lists(net, ins, id, In)
    requires Stores(CutAll(net, outs), in', In) && id in in' && in'[id] == ins
    requires Stores(CutAll(DropSide(net, id, outs), ins), out', Out)
    ensures NetOk(WithoutNode(net, id)) && Stores(WithoutNode(net, id), in' - {id}, In) && Stores(WithoutNode(net, id), out', Out)
  {
    BothLists(net, outs, ins, id);
    DropStores(CutAll(net, outs), in', id, In);
  }

  /** Strikes each edge of the node's own list from the list at its other end. */
  method Unlink(ghost full: Net, ghost net: Net, lists: map<string, seq<Edge>>, edges: seq<Edge>, id: string, side: Side)
    returns (r: map<string, seq<Edge>>)
    requires NetOk(full) && Lists(full, edges, id, if side.Out? then In else Out)
    requires Stores(net, lists, side) && full.nodes - {id} <= net.nodes
    ensures Stores(CutAll(net, edges), r, side) && (id in lists ==> id in r && r[id] == lists[id])
  {
    r := lists;
    CutNone(net);
    assert edges[..0] == [];
    for i := 0 to |edges|
      invariant Stores(CutAll(net, edges[..i]), r, side) && (id in lists ==> id in r && r[id] == lists[id])
    {
      FarEnds(full, edges, id, if side.Out? then In else Out, i);
      var other := Near(edges[i], side);
      CutStores(CutAll(net, edges[..i]), r, other, id, side);
      CutNext(net, edges, i);
      var kept, _ := DropFirst(r[other], id, side);
      r := r[other := kept];
    }
    assert edges[..|edges|] == edges;
  }

  lemma AddNodeStores(net: Net, lists: map<string, seq<Edge>>, id: string, side: Side)
    requires NetOk(net) && Stores(net, lists, side) && id !in net.nodes
    ensures Stores(Net(net.nodes + {id}, net.edges), lists[id := []], side)
  {
    var net', lists' := Net(net.nodes + {id}, net.edges), lists[id := []];
    forall u | u in lists' ensures Lists(net', lists'[u], u, side) {
      if u != id { assert Lists(net, lists[u], u, side); }
    }
  }

  lemma ListsOf(net: Net, lists: map<string, seq<Edge>>, u: string, side: Side)
    requires Stores(net, lists, side) && u in net.nodes
    ensures u in lists && Lists(net, lists[u], u, side)
  {
  }

  lemma JoinOk(net: Net, e: Edge)
    requires NetOk(net) && e.from != e.to && e.from in net.nodes && e.to in net.nodes && e.weight >= 0.0
    ensures NetOk(Join(net, e)) && Join(net, e).nodes == net.nodes
  {
  }

  lemma CutOk(net: Net, key: (string, string))
    requires NetOk(net)
    ensures NetOk(Cut(net, key)) && Cut(net, key).nodes == net.nodes
  {
  }

  lemma Listed(net: Net, edges: seq<Edge>, from: string, to: string)
    requires NetOk(net) && Lists(net, edges, from, Out)
    ensures (from, to) in net.edges <==> exists i :: 0 <= i < |edges| && Far(edges[i], Out) == to
  {
    if (from, to) in net.edges {
      assert net.edges[(from, to)] in edges;
      var i :| 0 <= i < |edges| && edges[i] == net.edges[(from, to)];
    }
  }
}
