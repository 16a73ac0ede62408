/** What the road graph's code computes, stated over sequences: walks and
    their costs, the result and the loop invariant of Dijkstra's
    algorithm, the prev chains it leaves behind, and the symmetry that
    `addEdge` keeps. */
module GraphSpec {

  /** One entry of an adjacency list (the `next` link is the list order). */
  datatype Edge = Edge(dest: int, weight: int)

  /** The lists after `addEdge(src, dest, weight)`. */
  function AddEdgeTo(adj: seq<seq<Edge>>, src: int, dest: int, weight: int): (r: seq<seq<Edge>>)
    requires 0 <= src < |adj| && 0 <= dest < |adj|
    ensures |r| == |adj|
    ensures forall u :: 0 <= u < |adj| && u != src && u != dest ==> r[u] == adj[u]
  {
    var a := adj[src := [Edge(dest, weight)] + adj[src]];
    a[dest := [Edge(src, weight)] + a[dest]]
  }

  /** Every edge u -> v of weight w is matched by as many edges v -> u of
      weight w. */
  ghost predicate Symmetric(adj: seq<seq<Edge>>) {
    forall u, v, w :: 0 <= u < |adj| && 0 <= v < |adj| ==>
      multiset(adj[u])[Edge(v, w)] == multiset(adj[v])[Edge(u, w)]
  }

  /** Graphs with no edges are symmetric (the state after `initGraph`). */
  lemma EmptySymmetric(adj: seq<seq<Edge>>)
    requires forall u :: 0 <= u < |adj| ==> adj[u] == []
    ensures Symmetric(adj)
  {
  }

  /** `addEdge` keeps the adjacency lists symmetric, and adds exactly one
      src -> dest edge and one dest -> src edge. */
  lemma AddEdgeSymmetric(adj: seq<seq<Edge>>, src: int, dest: int, weight: int)
    requires 0 <= src < |adj| && 0 <= dest < |adj| && Symmetric(adj)
    ensures Symmetric(AddEdgeTo(adj, src, dest, weight))
    ensures multiset(AddEdgeTo(adj, src, dest, weight)[src])[Edge(dest, weight)]
            == multiset(adj[src])[Edge(dest, weight)] + (if src == dest then 2 else 1)
  {
    var r := AddEdgeTo(adj, src, dest, weight);
    forall u, v, w | 0 <= u < |adj| && 0 <= v < |adj|
      ensures multiset(r[u])[Edge(v, w)] == multiset(r[v])[Edge(u, w)]
    {
      assert multiset(adj[u])[Edge(v, w)] == multiset(adj[v])[Edge(u, w)];
      SymmetricAt(adj, src, dest, weight, u, v, w);
    }
    AddedAt(adj, src, dest, weight, src);
  }

  /** One pair of counts of the symmetry after `addEdge`. */
  lemma SymmetricAt(adj: seq<seq<Edge>>, src: int, dest: int, weight: int, u: int, v: int, w: int)
    requires 0 <= src < |adj| && 0 <= dest < |adj| && 0 <= u < |adj| && 0 <= v < |adj|
    requires multiset(adj[u])[Edge(v, w)] == multiset(adj[v])[Edge(u, w)]
    ensures multiset(AddEdgeTo(adj, src, dest, weight)[u])[Edge(v, w)]
         == multiset(AddEdgeTo(adj, src, dest, weight)[v])[Edge(u, w)]
  {
    AddedAt(adj, src, dest, weight, u);
    AddedAt(adj, src, dest, weight, v);
  }

  /** The list of u after `addEdge`: its old edges, plus (dest, weight)
      when u is src and (src, weight) when u is dest. */
  lemma AddedAt(adj: seq<seq<Edge>>, src: int, dest: int, weight: int, u: int)
    requires 0 <= src < |adj| && 0 <= dest < |adj| && 0 <= u < |adj|
    ensures multiset(AddEdgeTo(adj, src, dest, weight)[u])
         == multiset(adj[u]) + (if u == src then multiset{Edge(dest, weight)} else multiset{})
                             + (if u == dest then multiset{Edge(src, weight)} else multiset{})
  {
  }

  // ------------------------------------------------------- graph predicates

  /** Every edge leads to a node in [0, n). */
  ghost predicate EdgesIn(adj: seq<seq<Edge>>, n: int) {
    forall u, e :: 0 <= u < |adj| && e in adj[u] ==> 0 <= e.dest < n
  }

  ghost predicate NonNeg(adj: seq<seq<Edge>>) {
    forall u, e :: 0 <= u < |adj| && e in adj[u] ==> 0 <= e.weight
  }

  /** No edge can shorten a distance in D any further. */
  ghost predicate Triangle(adj: seq<seq<Edge>>, D: seq<int>) {
    forall u, e :: 0 <= u < |adj| && u < |D| && e in adj[u] && 0 <= e.dest < |D| ==>
      D[e.dest] <= D[u] + e.weight
  }

  /** steps is a walk in the graph from `from` to `to`. */
  ghost predicate IsWalk(adj: seq<seq<Edge>>, from: int, steps: seq<Edge>, to: int)
    decreases |steps|
  {
    if |steps| == 0 then from == to
    else 0 <= from < |adj| && steps[0] in adj[from] && IsWalk(adj, steps[0].dest, steps[1..], to)
  }

  /** The length of a walk: the sum of its weights. */
  function Cost(steps: seq<Edge>): int {
    if |steps| == 0 then 0 else steps[0].weight + Cost(steps[1..])
  }

  /** The nodes a walk enters, in order. */
  function Dests(steps: seq<Edge>): (r: seq<int>)
    ensures |r| == |steps|
  {
    if |steps| == 0 then [] else [steps[0].dest] + Dests(steps[1..])
  }

  lemma {:induction false} WalkAppend(adj: seq<seq<Edge>>, a: int, steps: seq<Edge>, b: int, e: Edge)
    requires IsWalk(adj, a, steps, b) && 0 <= b < |adj| && e in adj[b]
    ensures IsWalk(adj, a, steps + [e], e.dest)
    ensures Cost(steps + [e]) == Cost(steps) + e.weight
    ensures Dests(steps + [e]) == Dests(steps) + [e.dest]
    decreases |steps|
  {
    if |steps| > 0 {
      assert (steps + [e])[1..] == steps[1..] + [e];
      WalkAppend(adj, steps[0].dest, steps[1..], b, e);
    } else {
      assert ([] + [e])[1..] == [];
    }
  }

  /** Along a walk, distances satisfying Triangle grow by at most the
      weights walked. */
  lemma {:induction false} WalkBound(adj: seq<seq<Edge>>, D: seq<int>, a: int, steps: seq<Edge>, b: int)
    requires |D| == |adj| && EdgesIn(adj, |D|) && Triangle(adj, D)
    requires 0 <= a < |D| && IsWalk(adj, a, steps, b)
    ensures 0 <= b < |D| && D[b] <= D[a] + Cost(steps)
    decreases |steps|
  {
    if |steps| > 0 {
      var e := steps[0];
      assert D[e.dest] <= D[a] + e.weight;
      WalkBound(adj, D, e.dest, steps[1..], b);
    }
  }

  // ------------------------------------------------------ dijkstra results

  /** prev[v] was linked to v by an edge of weight D[v] - D[prev[v]], and
      both distances are below inf. */
  ghost predicate Linked(adj: seq<seq<Edge>>, D: seq<int>, P: seq<int>, v: int, inf: int)
    requires 0 <= v < |D| == |P| == |adj|
  {
    0 <= P[v] < |D| && D[v] < inf && D[P[v]] < inf && Edge(v, D[v] - D[P[v]]) in adj[P[v]]
  }

  /** What `dijkstra` guarantees for any weights: the start is at distance
      0 with no predecessor, distances are at most inf, a node with no
      predecessor other than the start is at inf, and each predecessor is
      linked by an edge that accounts for the distance. */
  ghost predicate Base(adj: seq<seq<Edge>>, D: seq<int>, P: seq<int>, start: int, inf: int) {
    && |D| == |P| == |adj| && 0 <= start < |D| && 0 < inf
    && D[start] == 0 && P[start] == -1
    && (forall v :: 0 <= v < |D| ==> D[v] <= inf)
    && (forall v :: 0 <= v < |D| && v != start && P[v] == -1 ==> D[v] == inf)
    && (forall v :: 0 <= v < |D| && P[v] != -1 ==> Linked(adj, D, P, v, inf))
  }

  /** A ghost visit order: every predecessor was visited before its node,
      so following prev always ends. */
  ghost predicate Ranked(P: seq<int>, rank: seq<nat>) {
    && |rank| == |P|
    && forall v :: 0 <= v < |P| && P[v] != -1 ==> 0 <= P[v] < |P| && rank[P[v]] < rank[v]
  }

  /** The result of `dijkstra`; with non-negative weights the distances are
      also non-negative and cannot be shortened by any edge. */
  ghost predicate DijkstraResult(adj: seq<seq<Edge>>, D: seq<int>, P: seq<int>, rank: seq<nat>, start: int, inf: int) {
    && Base(adj, D, P, start, inf) && Ranked(P, rank) && EdgesIn(adj, |D|)
    && (NonNeg(adj) ==> Triangle(adj, D) && forall v :: 0 <= v < |D| ==> 0 <= D[v])
  }

  /** The prev chain ending at v, from its first node to v. */
  ghost function ChainTo(P: seq<int>, rank: seq<nat>, v: int): (c: seq<int>)
    requires Ranked(P, rank) && 0 <= v < |P|
    ensures |c| > 0 && c[|c| - 1] == v && 0 <= c[0] < |P| && P[c[0]] == -1
    ensures forall k :: 0 <= k < |c| ==> 0 <= c[k] < |P|
    decreases rank[v]
  {
    if P[v] == -1 then [v] else ChainTo(P, rank, P[v]) + [v]
  }

  /** The edges of the prev chain ending at v. */
  ghost function ChainSteps(P: seq<int>, rank: seq<nat>, D: seq<int>, v: int): seq<Edge>
    requires Ranked(P, rank) && 0 <= v < |P| == |D|
    decreases rank[v]
  {
    if P[v] == -1 then [] else ChainSteps(P, rank, D, P[v]) + [Edge(v, D[v] - D[P[v]])]
  }

  /** The prev chain is a walk from its first node whose cost is the
      distance gained along it. */
  lemma {:induction false} ChainWalk(adj: seq<seq<Edge>>, D: seq<int>, P: seq<int>, rank: seq<nat>, start: int, inf: int, v: int)
    requires Base(adj, D, P, start, inf) && Ranked(P, rank) && 0 <= v < |D|
    ensures var c := ChainTo(P, rank, v); var s := ChainSteps(P, rank, D, v);
      && IsWalk(adj, c[0], s, v) && Cost(s) == D[v] - D[c[0]] && c == [c[0]] + Dests(s)
    ensures D[v] < inf ==> ChainTo(P, rank, v)[0] == start
    decreases rank[v]
  {
    if P[v] != -1 {
      var p := P[v];
      ChainWalk(adj, D, P, rank, start, inf, p);
      var c := ChainTo(P, rank, p);
      var s := ChainSteps(P, rank, D, p);
      WalkAppend(adj, c[0], s, p, Edge(v, D[v] - D[p]));
      assert ChainTo(P, rank, v) == c + [v];
      assert ChainTo(P, rank, v)[0] == c[0];
    }
  }

  /** The shortest-path property of `dijkstra`'s result: with non-negative
      weights no walk from start to v is shorter than D[v]; a distance below
      inf is achieved by the prev chain, which starts at start; a node with
      no predecessor other than start is at inf and its chain is just
      itself. For any weights the chain of a node below inf is a walk from
      start of cost D[v]. */
  lemma ShortestPaths(adj: seq<seq<Edge>>, D: seq<int>, P: seq<int>, rank: seq<nat>, start: int, inf: int, v: int)
    requires DijkstraResult(adj, D, P, rank, start, inf) && 0 <= v < |D|
    ensures NonNeg(adj) ==> forall steps :: IsWalk(adj, start, steps, v) ==> D[v] <= Cost(steps)
    ensures D[v] < inf ==>
      var s := ChainSteps(P, rank, D, v);
      && IsWalk(adj, start, s, v) && Cost(s) == D[v] && ChainTo(P, rank, v) == [start] + Dests(s)
    ensures D[v] < inf || (D[v] == inf && P[v] == -1 && ChainTo(P, rank, v) == [v])
  {
    if NonNeg(adj) {
      forall steps | IsWalk(adj, start, steps, v)
        ensures D[v] <= Cost(steps)
      {
        WalkBound(adj, D, start, steps, v);
      }
    }
    ChainWalk(adj, D, P, rank, start, inf, v);
  }

  // ------------------------------------------------------ dijkstra's loop

  /** How many nodes are marked. */
  function Count(s: seq<bool>): (c: nat)
    ensures c <= |s|
  {
    if |s| == 0 then 0 else Count(s[..|s| - 1]) + (if s[|s| - 1] then 1 else 0)
  }

  /** Marking an unmarked node counts one more. */
  lemma {:induction false} CountMark(s: seq<bool>, u: int)
    requires 0 <= u < |s| && !s[u]
    ensures Count(s[u := true]) == Count(s) + 1
    decreases |s|
  {
    var t := s[u := true];
    if u < |s| - 1 {
      assert t[..|t| - 1] == s[..|s| - 1][u := true];
      CountMark(s[..|s| - 1], u);
    } else {
      assert t[..|t| - 1] == s[..|s| - 1];
    }
  }

  /** With two unmarked nodes, at most |s| - 2 are marked. */
  lemma {:induction false} CountTwoUnmarked(s: seq<bool>, a: int, b: int)
    requires 0 <= a < |s| && 0 <= b < |s| && a != b && !s[a] && !s[b]
    ensures Count(s) <= |s| - 2
    decreases |s|
  {
    var l := |s| - 1;
    if a == l || b == l {
      var o := if a == l then b else a;
      CountOneUnmarked(s[..l], o);
    } else {
      CountTwoUnmarked(s[..l], a, b);
    }
  }

  lemma {:induction false} CountOneUnmarked(s: seq<bool>, a: int)
    requires 0 <= a < |s| && !s[a]
    ensures Count(s) <= |s| - 1
    decreases |s|
  {
    var l := |s| - 1;
    if a < l {
      CountOneUnmarked(s[..l], a);
    }
  }

  /** Among the visited nodes and the nodes still to visit, with
      non-negative weights: all distances are non-negative, no visited node
      is farther than an unvisited one, and the edges out of visited nodes
      have been relaxed. */
  ghost predicate Settled(adj: seq<seq<Edge>>, D: seq<int>, vis: seq<bool>)
    requires |vis| == |D|
  {
    && (forall v :: 0 <= v < |D| ==> 0 <= D[v])
    && (forall a, b :: 0 <= a < |D| && 0 <= b < |D| && vis[a] && !vis[b] ==> D[a] <= D[b])
    && (forall a, e :: 0 <= a < |D| && a < |adj| && vis[a] && e in adj[a] && 0 <= e.dest < |D| ==>
          D[e.dest] <= D[a] + e.weight)
  }

  /** The invariant of `dijkstra`'s main loop after i rounds: vis marks the
      i visited nodes, which are ranked 0 .. i-1 in visit order (the rest
      rank |D|); predecessors are visited; the start is visited first. */
  ghost predicate DState(adj: seq<seq<Edge>>, D: seq<int>, P: seq<int>, vis: seq<bool>,
                         rank: seq<nat>, i: int, start: int, inf: int) {
    && Base(adj, D, P, start, inf) && Ranked(P, rank) && EdgesIn(adj, |D|)
    && Marks(D, vis, rank, i, inf) && PredsVisited(P, vis) && StartFirst(D, vis, i, start, inf)
    && (NonNeg(adj) ==> Settled(adj, D, vis))
  }

  /** i nodes are visited, each below inf and ranked below i; the others
      rank |D|. */
  ghost predicate Marks(D: seq<int>, vis: seq<bool>, rank: seq<nat>, i: int, inf: int) {
    && |vis| == |D| == |rank| && Count(vis) == i
    && forall v :: 0 <= v < |D| ==> if vis[v] then rank[v] < i && D[v] < inf else rank[v] == |D|
  }

  /** Every predecessor is a visited node. */
  ghost predicate PredsVisited(P: seq<int>, vis: seq<bool>) {
    && |vis| == |P|
    && forall v :: 0 <= v < |P| && P[v] != -1 ==> 0 <= P[v] < |P| && vis[P[v]]
  }

  /** Before the first round nothing is visited and only the start is
      below inf; after it the start is visited. */
  ghost predicate StartFirst(D: seq<int>, vis: seq<bool>, i: int, start: int, inf: int)
    requires |vis| == |D| && 0 <= start < |D|
  {
    && (i == 0 ==> forall v :: 0 <= v < |D| ==> !vis[v] && (v != start ==> D[v] == inf))
    && (i > 0 ==> vis[start])
  }

  /** What C's selection loop returns: the first unvisited node of least
      distance below inf, or -1 when every unvisited node is at inf or
      more. */
  ghost predicate Selected(D: seq<int>, vis: seq<bool>, inf: int, u: int)
    requires |vis| == |D|
  {
    if u == -1 then forall j :: 0 <= j < |D| && !vis[j] ==> D[j] >= inf
    else
      && 0 <= u < |D| && !vis[u] && D[u] < inf
      && (forall j :: 0 <= j < |D| && !vis[j] ==> D[u] <= D[j])
      && (forall j :: 0 <= j < u && !vis[j] ==> D[u] < D[j])
  }

  /** What relaxing the edges out of u did to D0 / P0: visited nodes are
      untouched, distances only went down, a lowered distance points back to
      u along one of the edges, and every edge into an unvisited node is
      now relaxed. */
  ghost predicate RelaxEffect(edges: seq<Edge>, u: int, vis: seq<bool>,
                              D0: seq<int>, P0: seq<int>, D: seq<int>, P: seq<int>) {
    && |D| == |D0| == |P| == |P0| == |vis| && 0 <= u < |D|
    && (forall v :: 0 <= v < |D| && vis[v] ==> D[v] == D0[v] && P[v] == P0[v])
    && (forall v :: 0 <= v < |D| ==> D[v] <= D0[v])
    && (forall v :: 0 <= v < |D| && D[v] != D0[v] ==> P[v] == u && Edge(v, D[v] - D0[u]) in edges)
    && (forall v :: 0 <= v < |D| && D[v] == D0[v] ==> P[v] == P0[v])
    && (forall e :: e in edges && 0 <= e.dest < |D| && !vis[e.dest] ==> D[e.dest] <= D0[u] + e.weight)
  }

  /** One pass of the relaxation loop keeps RelaxEffect. */
  lemma RelaxStep(edges: seq<Edge>, k: int, u: int, vis: seq<bool>, D0: seq<int>, P0: seq<int>,
                  D: seq<int>, P: seq<int>, D': seq<int>, P': seq<int>)
    requires 0 <= k < |edges| && RelaxEffect(edges[..k], u, vis, D0, P0, D, P) && vis[u]
    requires 0 <= edges[k].dest < |D|
    requires var e := edges[k];
      if !vis[e.dest] && D[u] + e.weight < D[e.dest]
      then D' == D[e.dest := D[u] + e.weight] && P' == P[e.dest := u]
      else D' == D && P' == P
    ensures RelaxEffect(edges[..k + 1], u, vis, D0, P0, D', P')
  {
    var e := edges[k];
    assert edges[..k + 1] == edges[..k] + [e];
    forall f | f in edges[..k + 1] && 0 <= f.dest < |D| && !vis[f.dest]
      ensures D'[f.dest] <= D0[u] + f.weight
    {
      if f in edges[..k] {
        assert D[f.dest] <= D0[u] + f.weight;
      }
    }
  }

  /** The state before the first round of the main loop. */
  lemma InitState(adj: seq<seq<Edge>>, D: seq<int>, P: seq<int>, vis: seq<bool>, rank: seq<nat>, start: int, inf: int)
    requires |D| == |P| == |adj| == |vis| == |rank| && 0 <= start < |D| && 0 < inf && EdgesIn(adj, |D|)
    requires forall v :: 0 <= v < |D| ==> !vis[v] && rank[v] == |D| && P[v] == -1
    requires forall v :: 0 <= v < |D| ==> D[v] == if v == start then 0 else inf
    ensures DState(adj, D, P, vis, rank, 0, start, inf)
  {
    NoneMarked(vis);
  }

  lemma {:induction false} NoneMarked(s: seq<bool>)
    requires forall v :: 0 <= v < |s| ==> !s[v]
    ensures Count(s) == 0
    decreases |s|
  {
    if |s| > 0 {
      NoneMarked(s[..|s| - 1]);
    }
  }

  /** One round of the main loop keeps DState: u was selected and marked
      (vis' is vis with u marked), then its edges were relaxed from D / P
      to D' / P'. */
  lemma Round(adj: seq<seq<Edge>>, D: seq<int>, P: seq<int>, vis: seq<bool>, vis': seq<bool>, rank: seq<nat>,
              i: int, start: int, inf: int, u: int, D': seq<int>, P': seq<int>)
    requires DState(adj, D, P, vis, rank, i, start, inf) && i < |D|
    requires u != -1 && Selected(D, vis, inf, u) && vis' == vis[u := true]
    requires RelaxEffect(adj[u], u, vis', D, P, D', P')
    ensures DState(adj, D', P', vis', rank[u := i], i + 1, start, inf)
  {
    if i == 0 {
      assert u == start;
    }
    assert vis'[start];
    RoundBase(adj, D, P, vis, vis', start, inf, u, D', P');
    RoundRank(adj, D, P, vis, vis', rank, rank[u := i], i, inf, u, D', P');
    if NonNeg(adj) {
      RoundSettled(adj, D, vis, vis', inf, u, D', P, P');
    }
  }

  lemma RoundBase(adj: seq<seq<Edge>>, D: seq<int>, P: seq<int>, vis: seq<bool>, vis': seq<bool>,
                  start: int, inf: int, u: int, D': seq<int>, P': seq<int>)
    requires Base(adj, D, P, start, inf) && |vis| == |D| && u != -1 && Selected(D, vis, inf, u)
    requires vis' == vis[u := true] && vis'[start] && PredsVisited(P, vis)
    requires RelaxEffect(adj[u], u, vis', D, P, D', P')
    ensures Base(adj, D', P', start, inf) && PredsVisited(P', vis')
  {
    assert D'[u] == D[u] && D'[start] == D[start] && P'[start] == P[start];
    forall v | 0 <= v < |D| && P'[v] != -1
      ensures Linked(adj, D', P', v, inf) && vis'[P'[v]]
    {
      if D'[v] != D[v] {
        assert P'[v] == u;
      } else {
        assert P'[v] == P[v] && Linked(adj, D, P, v, inf);
        assert vis[P[v]];
        assert D'[P[v]] == D[P[v]];
      }
    }
    assert forall v :: 0 <= v < |D| ==> D'[v] <= D[v] <= inf;
  }

  lemma RoundRank(adj: seq<seq<Edge>>, D: seq<int>, P: seq<int>, vis: seq<bool>, vis': seq<bool>,
                  rank: seq<nat>, rank': seq<nat>, i: int, inf: int, u: int, D': seq<int>, P': seq<int>)
    requires Ranked(P, rank) && Marks(D, vis, rank, i, inf) && PredsVisited(P, vis)
    requires |D| == |P| == |adj| && 0 <= i < |D|
    requires 0 <= u < |D| && !vis[u] && D[u] < inf && vis' == vis[u := true] && rank' == rank[u := i]
    requires RelaxEffect(adj[u], u, vis', D, P, D', P')
    ensures Ranked(P', rank') && Marks(D', vis', rank', i + 1, inf)
  {
    CountMark(vis, u);
    forall v | 0 <= v < |P'| && P'[v] != -1
      ensures 0 <= P'[v] < |P'| && rank'[P'[v]] < rank'[v]
    {
      if D'[v] != D[v] {
        assert P'[v] == u && !vis[v];
      } else {
        assert P'[v] == P[v] && vis[P[v]];
      }
    }
  }

  lemma RoundSettled(adj: seq<seq<Edge>>, D: seq<int>, vis: seq<bool>, vis': seq<bool>, inf: int, u: int,
                     D': seq<int>, P: seq<int>, P': seq<int>)
    requires |vis| == |D| == |adj| && NonNeg(adj) && Settled(adj, D, vis)
    requires u != -1 && Selected(D, vis, inf, u) && vis' == vis[u := true]
    requires RelaxEffect(adj[u], u, vis', D, P, D', P')
    ensures Settled(adj, D', vis')
  {
    forall v | 0 <= v < |D|
      ensures 0 <= D'[v]
    {
      if D'[v] != D[v] {
        var e := Edge(v, D'[v] - D[u]);
        assert e in adj[u];
      }
    }
    forall a, b | 0 <= a < |D| && 0 <= b < |D| && vis'[a] && !vis'[b]
      ensures D'[a] <= D'[b]
    {
      assert D'[a] == D[a] && D[a] <= D[u];
      if D'[b] != D[b] {
        var e := Edge(b, D'[b] - D[u]);
        assert e in adj[u];
      }
    }
    forall a, e | 0 <= a < |D| && vis'[a] && e in adj[a] && 0 <= e.dest < |D|
      ensures D'[e.dest] <= D'[a] + e.weight
    {
      if a != u {
        assert D[e.dest] <= D[a] + e.weight;
      } else if vis'[e.dest] {
        assert D'[e.dest] == D[e.dest];
      }
    }
  }

  /** When the main loop stops, either every unvisited node is at inf or at
      most one node is unvisited; either way the result is final. */
  lemma Finish(adj: seq<seq<Edge>>, D: seq<int>, P: seq<int>, vis: seq<bool>, rank: seq<nat>, i: int,
               start: int, inf: int)
    requires DState(adj, D, P, vis, rank, i, start, inf)
    requires i >= |D| - 1 || forall j :: 0 <= j < |D| && !vis[j] ==> D[j] >= inf
    ensures DijkstraResult(adj, D, P, rank, start, inf)
  {
    if NonNeg(adj) {
      forall a, e | 0 <= a < |adj| && a < |D| && e in adj[a] && 0 <= e.dest < |D|
        ensures D[e.dest] <= D[a] + e.weight
      {
        assert 0 <= e.weight;
        if !vis[a] {
          if !vis[e.dest] && e.dest != a {
            CountTwoUnmarked(vis, a, e.dest);
          }
        }
      }
    }
  }
}
