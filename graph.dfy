/** The road graph of graph.h / graph.c (and its copy in Graph.c): the
    adjacency lists updated in place, Dijkstra's O(n^2) loops over the
    `dist` / `prev` / `visited` arrays, and the path text built from
    `prev`. What the loops compute is specified in GraphSpec and
    PathFormat. */
module CityGraph {
  import opened Text
  import opened GraphSpec
  import opened PathFormat

  const MAX_NODES := 100
  /** graph.h's INF: distances of 9 or more count as unreachable. */
  const GRAPH_INF := 9

  // ------------------------------------------------------------ the graph

  class Graph {
    /** `list[u]` is the adjacency list of u, head first. */
    const list: array<seq<Edge>>
    var numNodes: int

    ghost predicate Valid()
      reads this
    {
      list.Length == MAX_NODES
    }

    /** The adjacency lists of the nodes in use. */
    ghost function Adj(): seq<seq<Edge>>
      reads this, list
      requires Valid() && 0 <= numNodes <= MAX_NODES
    {
      list[..numNodes]
    }

    /** A `Graph` variable: no nodes in use yet. */
    constructor ()
      ensures Valid() && fresh(list) && numNodes == 0
      ensures forall u :: 0 <= u < MAX_NODES ==> list[u] == []
    {
      list := new seq<Edge>[MAX_NODES](_ => []);
      numNodes := 0;
    }

    /** `initGraph`: n nodes, each with an empty list; the slots beyond n
        are left as they were. */
    method InitGraph(n: int)
      requires Valid() && n <= MAX_NODES
      modifies this, list
      ensures Valid() && numNodes == n
      ensures forall u :: 0 <= u < n ==> list[u] == []
      ensures forall u :: n <= u < MAX_NODES && 0 <= u ==> list[u] == old(list[u])
    {
      numNodes := n;
      var i := 0;
      while i < n
        invariant Valid() && numNodes == n
        invariant 0 <= i <= MAX_NODES && (i == 0 || i <= n)
        invariant forall u :: 0 <= u < i ==> list[u] == []
        invariant forall u :: i <= u < MAX_NODES ==> list[u] == old(list[u])
      {
        list[i] := [];
        i := i + 1;
      }
    }

    /** `addEdge`: an undirected edge, as (dest, w) prepended to src's list
        and then (src, w) prepended to dest's list. */
    method AddEdge(src: int, dest: int, weight: int)
      requires Valid() && 0 <= src < MAX_NODES && 0 <= dest < MAX_NODES
      modifies list
      ensures list[..] == AddEdgeTo(old(list[..]), src, dest, weight)
    {
      list[src] := [Edge(dest, weight)] + list[src];
      list[dest] := [Edge(src, weight)] + list[dest];
    }
  }

  // ------------------------------------------------------------ dijkstra

  /** The first loop of `dijkstra`: every node at inf with no predecessor. */
  method InitDist(dist: array<int>, prev: array<int>, n: int, inf: int)
    requires 0 <= n <= dist.Length && n <= prev.Length && dist != prev
    modifies dist, prev
    ensures forall v :: 0 <= v < n ==> dist[v] == inf && prev[v] == -1
    ensures dist[n..] == old(dist[n..])
    ensures prev[n..] == old(prev[n..])
  {
    var i := 0;
    while i < n
      invariant 0 <= i <= n
      invariant forall v :: 0 <= v < i ==> dist[v] == inf && prev[v] == -1
      invariant forall v :: i <= v < dist.Length ==> dist[v] == old(dist[v])
      invariant forall v :: i <= v < prev.Length ==> prev[v] == old(prev[v])
    {
      dist[i] := inf;
      prev[i] := -1;
      i := i + 1;
    }
  }

  /** The selection loop of `dijkstra`: scan for the unvisited node of
      least distance strictly below inf. */
  method SelectMin(visited: array<bool>, dist: array<int>, n: int, inf: int) returns (u: int)
    requires 0 <= n <= visited.Length && n <= dist.Length
    ensures Selected(dist[..n], visited[..n], inf, u)
  {
    u := -1;
    var min := inf;
    var j := 0;
    while j < n
      invariant 0 <= j <= n
      invariant -1 <= u < j
      invariant u == -1 ==> min == inf
      invariant u != -1 ==> !visited[u] && dist[u] == min && min < inf
      invariant forall k :: 0 <= k < j && !visited[k] ==> min <= dist[k]
      invariant forall k :: 0 <= k < u && !visited[k] ==> min < dist[k]
    {
      if !visited[j] && dist[j] < min {
        u := j;
        min := dist[j];
      }
      j := j + 1;
    }
  }

  /** The relaxation loop of `dijkstra` over u's adjacency list. */
  method Relax(edges: seq<Edge>, u: int, visited: array<bool>, dist: array<int>, prev: array<int>, n: int)
    requires 0 <= u < n <= visited.Length && n <= dist.Length && n <= prev.Length
    requires visited[u] && dist != prev
    requires forall e :: e in edges ==> 0 <= e.dest < n
    modifies dist, prev
    ensures RelaxEffect(edges, u, visited[..n], old(dist[..n]), old(prev[..n]), dist[..n], prev[..n])
    ensures dist[n..] == old(dist[n..])
    ensures prev[n..] == old(prev[n..])
  {
    ghost var vis := visited[..n];
    ghost var D0 := dist[..n];
    ghost var P0 := prev[..n];
    var k := 0;
    while k < |edges|
      invariant 0 <= k <= |edges|
      invariant RelaxEffect(edges[..k], u, vis, D0, P0, dist[..n], prev[..n])
      invariant dist[n..] == old(dist[n..])
      invariant prev[n..] == old(prev[n..])
    {
      ghost var D, P := dist[..n], prev[..n];
      RelaxEdge(edges[k], u, visited, dist, prev, n);
      RelaxStep(edges, k, u, vis, D0, P0, D, P, dist[..n], prev[..n]);
      k := k + 1;
    }
    assert edges[..k] == edges;
  }

  /** The body of the relaxation loop: one edge out of u shortens the
      distance of its unvisited destination when it gives a cheaper walk. */
  method RelaxEdge(e: Edge, u: int, visited: array<bool>, dist: array<int>, prev: array<int>, n: int)
    requires 0 <= u < n <= visited.Length && n <= dist.Length && n <= prev.Length
    requires dist != prev && 0 <= e.dest < n
    modifies dist, prev
    ensures var D, P := old(dist[..n]), old(prev[..n]);
      if !visited[e.dest] && D[u] + e.weight < D[e.dest]
      then dist[..n] == D[e.dest := D[u] + e.weight] && prev[..n] == P[e.dest := u]
      else dist[..n] == D && prev[..n] == P
    ensures dist[n..] == old(dist[n..])
    ensures prev[n..] == old(prev[n..])
  {
    if !visited[e.dest] && dist[u] + e.weight < dist[e.dest] {
      dist[e.dest] := dist[u] + e.weight;
      prev[e.dest] := u;
    }
  }

  /** `dijkstra(g, start, dist, prev)` with the INF of the caller: n - 1
      rounds of selecting the nearest unvisited node and relaxing its
      edges, stopping early when the rest is out of reach. rank is the
      ghost visit order of the nodes. */
  method Dijkstra(g: Graph, start: int, inf: int, dist: array<int>, prev: array<int>) returns (ghost rank: seq<nat>)
    requires g.Valid() && 0 <= start < g.numNodes <= MAX_NODES && 0 < inf
    requires EdgesIn(g.Adj(), g.numNodes)
    requires g.numNodes <= dist.Length && g.numNodes <= prev.Length && dist != prev
    modifies dist, prev
    ensures DijkstraResult(g.Adj(), dist[..g.numNodes], prev[..g.numNodes], rank, start, inf)
    ensures dist[g.numNodes..] == old(dist[g.numNodes..])
    ensures prev[g.numNodes..] == old(prev[g.numNodes..])
  {
    var n := g.numNodes;
    ghost var adj := g.Adj();
    var visited := new bool[MAX_NODES](_ => false);
    rank := Start(g, start, inf, visited, dist, prev);
    var i := 0;
    while i < n - 1
      invariant 0 <= i && i <= n
      invariant DState(adj, dist[..n], prev[..n], visited[..n], rank, i, start, inf)
      invariant dist[n..] == old(dist[n..])
      invariant prev[n..] == old(prev[n..])
    {
      var u := SelectMin(visited, dist, n, inf);
      if u == -1 {
        break;
      }
      Visit(g, adj, u, visited, dist, prev, rank, i, start, inf);
      rank := rank[u := i];
      i := i + 1;
    }
    Finish(adj, dist[..n], prev[..n], visited[..n], rank, i, start, inf);
    assert adj == g.Adj();
  }

  /** Everything `dijkstra` does before its main loop, on a fresh visited
      array: the start at 0, every other node at inf, no predecessors. */
  method Start(g: Graph, start: int, inf: int, visited: array<bool>, dist: array<int>, prev: array<int>)
    returns (ghost rank: seq<nat>)
    requires g.Valid() && 0 <= start < g.numNodes <= MAX_NODES && 0 < inf
    requires EdgesIn(g.Adj(), g.numNodes)
    requires g.numNodes <= visited.Length && g.numNodes <= dist.Length && g.numNodes <= prev.Length && dist != prev
    requires forall v :: 0 <= v < visited.Length ==> !visited[v]
    modifies dist, prev
    ensures DState(g.Adj(), dist[..g.numNodes], prev[..g.numNodes], visited[..g.numNodes], rank, 0, start, inf)
    ensures dist[g.numNodes..] == old(dist[g.numNodes..])
    ensures prev[g.numNodes..] == old(prev[g.numNodes..])
  {
    var n := g.numNodes;
    InitDist(dist, prev, n, inf);
    dist[start] := 0;
    assert dist[n..] == old(dist[n..]);
    rank := seq(n, _ => n);
    InitState(g.Adj(), dist[..n], prev[..n], visited[..n], rank, start, inf);
  }

  /** The body of `dijkstra`'s main loop once u is chosen: u is marked
      visited and the edges out of it are relaxed, which keeps the loop
      invariant with u ranked i. */
  method Visit(g: Graph, ghost adj: seq<seq<Edge>>, u: int, visited: array<bool>, dist: array<int>, prev: array<int>,
               ghost rank: seq<nat>, ghost i: int, ghost start: int, ghost inf: int)
    requires g.Valid() && 0 <= g.numNodes <= MAX_NODES && adj == g.Adj() && EdgesIn(adj, g.numNodes)
    requires g.numNodes <= visited.Length && g.numNodes <= dist.Length && g.numNodes <= prev.Length
    requires dist != prev && i < g.numNodes
    requires DState(adj, dist[..g.numNodes], prev[..g.numNodes], visited[..g.numNodes], rank, i, start, inf)
    requires u != -1 && Selected(dist[..g.numNodes], visited[..g.numNodes], inf, u)
    modifies visited, dist, prev
    ensures DState(adj, dist[..g.numNodes], prev[..g.numNodes], visited[..g.numNodes], rank[u := i], i + 1, start, inf)
    ensures dist[g.numNodes..] == old(dist[g.numNodes..])
    ensures prev[g.numNodes..] == old(prev[g.numNodes..])
  {
    var n := g.numNodes;
    ghost var D, P, vis := dist[..n], prev[..n], visited[..n];
    visited[u] := true;
    assert visited[..n] == vis[u := true];
    assert g.list[u] == adj[u];
    Relax(g.list[u], u, visited, dist, prev, n);
    Round(adj, D, P, vis, visited[..n], rank, i, start, inf, u, dist[..n], prev[..n]);
  }

  // ----------------------------------------------------- reconstructPath

  /** `reconstructPath(prev, target, pathStr)`: push the prev chain of
      target on a stack, then write it out from the bottom, joined by
      " -> ". */
  method ReconstructPath(prev: array<int>, target: int, ghost n: int, ghost rank: seq<nat>) returns (path: string)
    requires 0 <= target < n <= prev.Length && Ranked(prev[..n], rank)
    ensures path == PathText(ChainTo(prev[..n], rank, target))
  {
    var stack := PushChain(prev, target, n, rank);
    path := WriteStack(stack);
  }

  /** The first loop of `reconstructPath`: the stack holds the prev chain
      from target back to its first node. */
  method PushChain(prev: array<int>, target: int, ghost n: int, ghost rank: seq<nat>) returns (stack: seq<int>)
    requires 0 <= target < n <= prev.Length && Ranked(prev[..n], rank)
    ensures Reversed(stack) == ChainTo(prev[..n], rank, target)
  {
    ghost var P := prev[..n];
    ghost var chain := ChainTo(P, rank, target);
    stack := [];
    var node := target;
    while node != -1
      invariant node == -1 || 0 <= node < n
      invariant chain == (if node == -1 then [] else ChainTo(P, rank, node)) + Reversed(stack)
      decreases if node == -1 then 0 else rank[node] + 1
    {
      ReversedSnoc(stack, node);
      assert P[node] == prev[node];
      stack := stack + [node];
      node := prev[node];
    }
  }

  /** The second loop of `reconstructPath`: from the top of the stack down,
      each id followed by " -> " except the last. */
  method WriteStack(stack: seq<int>) returns (path: string)
    requires |stack| > 0
    ensures path == PathText(Reversed(stack))
  {
    path := "";
    var i := |stack| - 1;
    while i >= 0
      invariant -1 <= i < |stack|
      invariant path == Out(stack, i)
    {
      path := path + IntToString(stack[i]) + (if i > 0 then " -> " else "");
      i := i - 1;
    }
    OutText(stack);
  }

  /** What a route query from start to end reports, given the INF of the
      caller: a distance of at most inf; with non-negative weights no walk
      from start to end is cheaper; a distance below inf is the cost of a
      walk from start whose nodes the path text lists; an unreachable end
      is reported as just itself. */
  ghost predicate ShortestRoute(adj: seq<seq<Edge>>, start: int, end: int, inf: int, path: string, distance: int) {
    && distance <= inf
    && (NonNeg(adj) ==> 0 <= distance && forall steps :: IsWalk(adj, start, steps, end) ==> distance <= Cost(steps))
    && (distance < inf ==>
          exists steps :: IsWalk(adj, start, steps, end) && Cost(steps) == distance
                          && path == PathText([start] + Dests(steps)))
    && (distance >= inf ==> path == IntToString(end))
  }

  /** With non-negative weights, the route from a node to itself has
      length 0: the empty walk costs nothing. */
  lemma RouteToSelf(adj: seq<seq<Edge>>, start: int, inf: int, path: string, distance: int)
    requires NonNeg(adj) && 0 < inf && ShortestRoute(adj, start, start, inf, path, distance)
    ensures distance == 0
  {
    assert IsWalk(adj, start, [], start);
  }

  /** Dijkstra from start followed by reconstructPath to end, with the INF
      of the caller (graph.h's 9 or Graph.c's 999999): the path text and
      the distance to end. */
  method Route(g: Graph, start: int, end: int, inf: int) returns (path: string, distance: int)
    requires g.Valid() && 0 <= start < g.numNodes <= MAX_NODES && 0 <= end < g.numNodes && 0 < inf
    requires EdgesIn(g.Adj(), g.numNodes)
    ensures ShortestRoute(g.Adj(), start, end, inf, path, distance)
  {
    var dist := new int[MAX_NODES];
    var prev := new int[MAX_NODES];
    ghost var rank := Dijkstra(g, start, inf, dist, prev);
    path := ReconstructPath(prev, end, g.numNodes, rank);
    distance := dist[end];
    ghost var D, P := dist[..g.numNodes], prev[..g.numNodes];
    ShortestPaths(g.Adj(), D, P, rank, start, inf, end);
    if distance < inf {
      var s := ChainSteps(P, rank, D, end);
      assert IsWalk(g.Adj(), start, s, end);
    }
  }

  /** `printShortestPath` without the printf: the path and distance it
      reports, with graph.h's INF of 9. */
  method ShortestPath(g: Graph, start: int, end: int) returns (path: string, distance: int)
    requires g.Valid() && 0 <= start < g.numNodes <= MAX_NODES && 0 <= end < g.numNodes
    requires EdgesIn(g.Adj(), g.numNodes)
    ensures ShortestRoute(g.Adj(), start, end, GRAPH_INF, path, distance)
  {
    path, distance := Route(g, start, end, GRAPH_INF);
  }
}
