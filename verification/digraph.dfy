/**
  petgraph's `DiGraphMap<N, ()>` as used by both services: a set of nodes and
  a set of directed edges, at most one edge per ordered pair (adding an edge
  that already exists changes nothing observable, since the weight is `()`).
 */
module Digraph {

  datatype Graph<N> = Graph(nodes: set<N>, edges: set<(N, N)>)

  /** Every edge joins two nodes of the graph; petgraph maintains this itself. */
  ghost predicate Valid<N>(g: Graph<N>) {
    forall e :: e in g.edges ==> e.0 in g.nodes && e.1 in g.nodes
  }

  function Empty<N>(): (g: Graph<N>)
    ensures Valid(g) && g.nodes == {} && g.edges == {}
  {
    Graph({}, {})
  }

  /** `neighbors(n)` / `neighbors_directed(n, Outgoing)`. */
  function Successors<N>(g: Graph<N>, n: N): set<N> {
    set e | e in g.edges && e.0 == n :: e.1
  }

  /** `neighbors_directed(n, Incoming)`. */
  function Predecessors<N>(g: Graph<N>, n: N): set<N> {
    set e | e in g.edges && e.1 == n :: e.0
  }

  /** `add_node`: idempotent, no new edge. */
  function AddNode<N(!new)>(g: Graph<N>, n: N): (r: Graph<N>)
    requires Valid(g)
    ensures Valid(r)
    ensures n in r.nodes && r.edges == g.edges
    ensures forall m :: m in r.nodes <==> m in g.nodes || m == n
  {
    Graph(g.nodes + {n}, g.edges)
  }

  /** `add_edge(a, b)`: creates both end points when they are missing. */
  function AddEdge<N(!new)>(g: Graph<N>, a: N, b: N): (r: Graph<N>)
    requires Valid(g)
    ensures Valid(r)
    ensures (a, b) in r.edges && a in r.nodes && b in r.nodes
    ensures forall e :: e in r.edges <==> e in g.edges || e == (a, b)
    ensures forall m :: m in r.nodes <==> m in g.nodes || m == a || m == b
  {
    Graph(g.nodes + {a, b}, g.edges + {(a, b)})
  }

  /** `remove_edge(a, b)`: drops the one edge and keeps both nodes. */
  function RemoveEdge<N(!new)>(g: Graph<N>, a: N, b: N): (r: Graph<N>)
    requires Valid(g)
    ensures Valid(r)
    ensures (a, b) !in r.edges && r.nodes == g.nodes
    ensures forall e :: e in r.edges <==> e in g.edges && e != (a, b)
  {
    Graph(g.nodes, g.edges - {(a, b)})
  }

  /** `remove_node(n)`: the node and every edge touching it disappear. */
  function RemoveNode<N(!new)>(g: Graph<N>, n: N): (r: Graph<N>)
    requires Valid(g)
    ensures Valid(r)
    ensures n !in r.nodes
    ensures forall m :: m in r.nodes <==> m in g.nodes && m != n
    ensures forall e :: e in r.edges <==> e in g.edges && e.0 != n && e.1 != n
  {
    Graph(g.nodes - {n}, set e | e in g.edges && e.0 != n && e.1 != n)
  }

  /**
    `for j in neighbors(i) { remove_edge(i, j) }`: every edge leaving `i` goes,
    nothing else changes.
   */
  function RemoveOutgoing<N(!new)>(g: Graph<N>, i: N): (r: Graph<N>)
    requires Valid(g)
    ensures Valid(r)
    ensures r.nodes == g.nodes
    ensures Successors(r, i) == {}
    ensures forall e :: e in r.edges <==> e in g.edges && e.0 != i
  {
    Graph(g.nodes, set e | e in g.edges && e.0 != i)
  }

  /**
    `for k in neighbors_directed(j, Incoming) { remove_edge(k, j) }`: every
    edge entering `j` goes, nothing else changes.
   */
  function RemoveIncoming<N(!new)>(g: Graph<N>, j: N): (r: Graph<N>)
    requires Valid(g)
    ensures Valid(r)
    ensures r.nodes == g.nodes
    ensures Predecessors(r, j) == {}
    ensures forall e :: e in r.edges <==> e in g.edges && e.1 != j
  {
    Graph(g.nodes, set e | e in g.edges && e.1 != j)
  }

  /** The elements of a sequence, as a set. */
  function Elements<T>(s: seq<T>): set<T> {
    set x | x in s
  }

  /**
    `for j in links { add_edge(i, j) }`, applied in list order. The result
    gains exactly the edges `i -> j` for the listed `j`, and the nodes they
    touch; repetitions in `links` make no difference.
   */
  function AddEdgesFrom<N(!new)>(g: Graph<N>, i: N, links: seq<N>): (r: Graph<N>)
    requires Valid(g)
    ensures Valid(r)
    ensures forall e :: e in r.edges <==> e in g.edges || (e.0 == i && e.1 in links)
    ensures forall m :: m in r.nodes <==> m in g.nodes || m in links || (m == i && |links| > 0)
    decreases |links|
  {
    if links == [] then g
    else
      var r := AddEdge(AddEdgesFrom(g, i, links[..|links| - 1]), i, links[|links| - 1]);
      assert forall m :: m in links <==> m in links[..|links| - 1] || m == links[|links| - 1];
      r
  }

  /**
    `for j in links { add_edge(j, i) }`, restricted to the `j` admitted by
    `keep`: the result gains exactly the edges `j -> i` for listed, kept `j`.
   */
  function AddEdgesInto<N(!new)>(g: Graph<N>, links: seq<N>, i: N, keep: N -> bool): (r: Graph<N>)
    requires Valid(g)
    ensures Valid(r)
    ensures forall e :: e in r.edges <==> e in g.edges || (e.1 == i && e.0 in links && keep(e.0))
    ensures g.nodes <= r.nodes
    ensures forall m :: m in r.nodes ==> m in g.nodes || m == i || m in links
    decreases |links|
  {
    if links == [] then g
    else
      var prefix := AddEdgesInto(g, links[..|links| - 1], i, keep);
      var last := links[|links| - 1];
      assert forall m :: m in links <==> m in links[..|links| - 1] || m == last;
      if keep(last) then AddEdge(prefix, last, i) else prefix
  }

  /** `for j in targets { add_edge(i, j) }` over a hash set, whose order makes no difference. */
  function AddEdgesOut<N(!new)>(g: Graph<N>, i: N, targets: set<N>): (r: Graph<N>)
    requires Valid(g)
    ensures Valid(r)
    ensures forall e :: e in r.edges <==> e in g.edges || (e.0 == i && e.1 in targets)
    ensures forall m :: m in r.nodes <==> m in g.nodes || m in targets || (m == i && targets != {})
  {
    Graph(g.nodes + targets + (if targets == {} then {} else {i}), g.edges + set j | j in targets :: (i, j))
  }

  /** `for k in sources { add_edge(k, j) }` over a hash set. */
  function AddEdgesIn<N(!new)>(g: Graph<N>, sources: set<N>, j: N): (r: Graph<N>)
    requires Valid(g)
    ensures Valid(r)
    ensures forall e :: e in r.edges <==> e in g.edges || (e.1 == j && e.0 in sources)
    ensures forall m :: m in r.nodes <==> m in g.nodes || m in sources || (m == j && sources != {})
  {
    Graph(g.nodes + sources + (if sources == {} then {} else {j}), g.edges + set k | k in sources :: (k, j))
  }

  // ---------------------------------------------------------------------------
  // Reachability and breadth-first search (petgraph's `Bfs`)

  /** Consecutive elements of `p` are joined by edges of `g`. */
  ghost predicate IsPath<N>(g: Graph<N>, p: seq<N>) {
    forall k :: 0 <= k < |p| - 1 ==> (p[k], p[k + 1]) in g.edges
  }

  /** `b` can be reached from `a` by following zero or more edges. */
  ghost predicate Reachable<N(!new)>(g: Graph<N>, a: N, b: N) {
    exists p :: |p| >= 1 && p[0] == a && p[|p| - 1] == b && IsPath(g, p)
  }

  /** No edge leaves the set `s`. */
  ghost predicate Closed<N>(g: Graph<N>, s: set<N>) {
    forall e :: e in g.edges && e.0 in s ==> e.1 in s
  }

  /** A set closed under the edges contains every node reachable from its members. */
  lemma {:induction false} ClosedContainsPath<N>(g: Graph<N>, s: set<N>, p: seq<N>)
    requires Closed(g, s) && IsPath(g, p) && |p| >= 1 && p[0] in s
    ensures p[|p| - 1] in s
    decreases |p|
  {
    if |p| > 1 {
      var q := p[..|p| - 1];
      assert IsPath(g, q) by {
        forall k | 0 <= k < |q| - 1
          ensures (q[k], q[k + 1]) in g.edges
        {
          assert (p[k], p[k + 1]) in g.edges;
        }
      }
      ClosedContainsPath(g, s, q);
      assert (p[|p| - 2], p[|p| - 1]) in g.edges;
    }
  }

  /** A path extended by one edge is a path. */
  lemma ExtendPath<N>(g: Graph<N>, p: seq<N>, m: N)
    requires IsPath(g, p) && |p| >= 1 && (p[|p| - 1], m) in g.edges
    ensures IsPath(g, p + [m])
  {
    var q := p + [m];
    forall k | 0 <= k < |q| - 1
      ensures (q[k], q[k + 1]) in g.edges
    {
      if k < |p| - 1 {
        assert q[k] == p[k] && q[k + 1] == p[k + 1];
      }
    }
  }

  /**
    Breadth-first visiting order from `start`: every node reachable from
    `start`, each exactly once, beginning with `start` itself (petgraph's
    `Bfs` yields the start node first even when it has no edges).
   */
  method Bfs<N(!new)>(g: Graph<N>, start: N) returns (order: seq<N>)
    requires Valid(g)
    ensures |order| >= 1 && order[0] == start
    ensures forall k, l :: 0 <= k < l < |order| ==> order[k] != order[l]
    ensures forall n :: n in order <==> Reachable(g, start, n)
  {
    order := [start];
    var visited := {start};
    var head := 0;
    assert IsPath(g, [start]);
    while head < |order|
      invariant 0 <= head <= |order| && |order| >= 1 && order[0] == start
      invariant forall n :: n in visited <==> n in order
      invariant forall k, l :: 0 <= k < l < |order| ==> order[k] != order[l]
      invariant visited <= g.nodes + {start}
      invariant forall n :: n in visited ==> Reachable(g, start, n)
      invariant forall k, m :: 0 <= k < head && (order[k], m) in g.edges ==> m in visited
      decreases (g.nodes + {start}) - visited, |order| - head
    {
      var x := order[head];
      ghost var visited0 := visited;
      ghost var order0 := order;
      var rest := Successors(g, x);
      while rest != {}
        invariant rest <= Successors(g, x)
        invariant forall m :: m in Successors(g, x) - rest ==> m in visited
        invariant order0 <= order && visited0 <= visited && (visited == visited0 ==> order == order0)
        invariant order[0] == start && x == order[head] && head < |order|
        invariant forall n :: n in visited <==> n in order
        invariant forall k, l :: 0 <= k < l < |order| ==> order[k] != order[l]
        invariant visited <= g.nodes + {start}
        invariant forall n :: n in visited ==> Reachable(g, start, n)
        invariant forall k, m :: 0 <= k < head && (order[k], m) in g.edges ==> m in visited
        decreases rest
      {
        var m :| m in rest;
        if m !in visited {
          assert (x, m) in g.edges;
          assert x in visited && Reachable(g, start, x);
          ghost var p :| |p| >= 1 && p[0] == start && p[|p| - 1] == x && IsPath(g, p);
          ExtendPath(g, p, m);
          assert (p + [m])[|p + [m]| - 1] == m;
          order := order + [m];
          visited := visited + {m};
        }
        rest := rest - {m};
      }
      forall m | (x, m) in g.edges
        ensures m in visited
      {
        assert m in Successors(g, x);
      }
      head := head + 1;
    }
    forall n | Reachable(g, start, n)
      ensures n in order
    {
      var p :| |p| >= 1 && p[0] == start && p[|p| - 1] == n && IsPath(g, p);
      assert Closed(g, visited) by {
        forall e | e in g.edges && e.0 in visited
          ensures e.1 in visited
        {
          var k :| 0 <= k < |order| && order[k] == e.0;
          assert (order[k], e.1) in g.edges;
        }
      }
      ClosedContainsPath(g, visited, p);
    }
  }
}
