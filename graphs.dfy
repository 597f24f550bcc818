/**
 Vocabulary shared by the adjacency map and the shortest-path search of the
 Dijkstra demo: node labels, weighted adjacency entries, the adjacency map that
 `Graph.addEdge` builds, walks through it and their weights.
 */
module Graphs {

  /** A node is identified by its label; equality is string equality. */
  type Node = string

  /** One entry of an adjacency list: the neighbour and the weight of the edge.
      The search reuses the same record as a priority-queue entry, holding the
      tentative distance in `weight`. */
  datatype Edge = Edge(node: Node, weight: int)

  /** The `adjacencyList` field: each known node with its incident edges in insertion order. */
  type Adjacency = map<Node, seq<Edge>>

  datatype Option<T> = None | Some(value: T)

  function Last<T>(s: seq<T>): T
    requires |s| > 0
  {
    s[|s| - 1]
  }

  /** The list of `u`, or the empty list when `u` is not a key yet. */
  function ListOf(adj: Adjacency, u: Node): seq<Edge> {
    if u in adj then adj[u] else []
  }

  /** How many copies of `e` the list of `u` holds. */
  function Mult(adj: Adjacency, u: Node, e: Edge): nat {
    multiset(ListOf(adj, u))[e]
  }

  /** Undirectedness, counting parallel edges: `u` lists `v` with weight `w`
      exactly as often as `v` lists `u` with weight `w`. */
  ghost predicate Symmetric(adj: Adjacency) {
    forall u, v, w :: Mult(adj, u, Edge(v, w)) == Mult(adj, v, Edge(u, w))
  }

  /** Every neighbour that appears in some list is itself a key. */
  ghost predicate Closed(adj: Adjacency) {
    forall u, e :: u in adj && e in adj[u] ==> e.node in adj
  }

  ghost predicate NonNegative(adj: Adjacency) {
    forall u, e :: u in adj && e in adj[u] ==> e.weight >= 0
  }

  lemma SymmetricIsClosed(adj: Adjacency)
    requires Symmetric(adj)
    ensures Closed(adj)
  {
    forall u, e | u in adj && e in adj[u]
      ensures e.node in adj
    {
      assert Mult(adj, u, Edge(e.node, e.weight)) > 0;
      assert Mult(adj, e.node, Edge(u, e.weight)) > 0;
    }
  }

  /** The adjacency map after `addEdge(from, to, weight)`: both endpoints become
      keys (an absent one with an empty list), then `to` is appended to the list
      of `from` and `from` to the list of `to`. */
  function WithEdge(adj: Adjacency, from: Node, to: Node, weight: int): (r: Adjacency)
    ensures r.Keys == adj.Keys + {from, to}
    ensures forall u :: u in adj && u != from && u != to ==> r[u] == adj[u]
    ensures from != to ==> r[from] == ListOf(adj, from) + [Edge(to, weight)]
    ensures from != to ==> r[to] == ListOf(adj, to) + [Edge(from, weight)]
    ensures from == to ==> r[from] == ListOf(adj, from) + [Edge(to, weight), Edge(from, weight)]
  {
    var withFrom := if from in adj then adj else adj[from := []];
    var withBoth := if to in withFrom then withFrom else withFrom[to := []];
    var appended := withBoth[from := withBoth[from] + [Edge(to, weight)]];
    appended[to := appended[to] + [Edge(from, weight)]]
  }

  /** Adding an edge adds one copy of `Edge(to, weight)` to the list of `from` and
      one copy of `Edge(from, weight)` to the list of `to`, and nothing else: no
      deduplication, so a repeated call makes a parallel edge and a self-loop
      adds two entries to one list. */
  lemma MultWithEdge(adj: Adjacency, from: Node, to: Node, weight: int, u: Node, e: Edge)
    ensures Mult(WithEdge(adj, from, to, weight), u, e)
         == Mult(adj, u, e)
          + (if u == from && e == Edge(to, weight) then 1 else 0)
          + (if u == to && e == Edge(from, weight) then 1 else 0)
  {
    var after := ListOf(WithEdge(adj, from, to, weight), u);
    var before := ListOf(adj, u);
    var added: seq<Edge> :=
      if u == from && from == to then [Edge(to, weight), Edge(from, weight)]
      else if u == from then [Edge(to, weight)]
      else if u == to then [Edge(from, weight)]
      else [];
    assert after == before + added;
    assert multiset(after)[e] == multiset(before)[e] + multiset(added)[e];
  }

  lemma WithEdgeSymmetric(adj: Adjacency, from: Node, to: Node, weight: int)
    requires Symmetric(adj)
    ensures Symmetric(WithEdge(adj, from, to, weight))
  {
    var r := WithEdge(adj, from, to, weight);
    forall u, v, w
      ensures Mult(r, u, Edge(v, w)) == Mult(r, v, Edge(u, w))
    {
      MultWithEdge(adj, from, to, weight, u, Edge(v, w));
      MultWithEdge(adj, from, to, weight, v, Edge(u, w));
    }
  }

  /** The sum of a sequence of weights (added from the back, as a walk grows). */
  function Sum(ws: seq<int>): int {
    if ws == [] then 0 else Sum(ws[..|ws| - 1]) + Last(ws)
  }

  lemma {:induction false} SumAppend(a: seq<int>, b: seq<int>)
    ensures Sum(a + b) == Sum(a) + Sum(b)
    decreases |b|
  {
    if b != [] {
      assert (a + b)[..|a + b| - 1] == a + b[..|b| - 1];
      SumAppend(a, b[..|b| - 1]);
    } else {
      assert a + b == a;
    }
  }

  /** A walk visits the nodes `p` and crosses, from `p[i]` to `p[i + 1]`, an
      adjacency entry of `p[i]` with weight `ws[i]`. Nodes and edges may repeat. */
  ghost predicate IsWalk(adj: Adjacency, p: seq<Node>, ws: seq<int>) {
    && |p| == |ws| + 1
    && forall i :: 0 <= i < |ws| ==> p[i] in adj && Edge(p[i + 1], ws[i]) in adj[p[i]]
  }

  ghost predicate WalkBetween(adj: Adjacency, p: seq<Node>, ws: seq<int>, s: Node, t: Node) {
    IsWalk(adj, p, ws) && p[0] == s && Last(p) == t
  }

  ghost predicate Reachable(adj: Adjacency, s: Node, t: Node) {
    exists p, ws :: WalkBetween(adj, p, ws, s, t)
  }

  /** No walk from `s` to `t` weighs less than `d`. */
  ghost predicate LowerBound(adj: Adjacency, s: Node, t: Node, d: int) {
    forall p, ws :: WalkBetween(adj, p, ws, s, t) ==> d <= Sum(ws)
  }

  /** No node occurs twice in `p`: a walk with this property is a simple path. */
  predicate Distinct(p: seq<Node>) {
    forall i, j :: 0 <= i < j < |p| ==> p[i] != p[j]
  }

  function Reversed<T>(s: seq<T>): (r: seq<T>)
    ensures |r| == |s|
    ensures forall k :: 0 <= k < |s| ==> r[k] == s[|s| - 1 - k]
  {
    if s == [] then [] else Reversed(s[1..]) + [s[0]]
  }

  lemma {:induction false} SumReversed(ws: seq<int>)
    ensures Sum(Reversed(ws)) == Sum(ws)
    decreases |ws|
  {
    if ws != [] {
      SumReversed(ws[1..]);
      SumAppend(Reversed(ws[1..]), [ws[0]]);
      SumAppend([ws[0]], ws[1..]);
      assert [ws[0]] + ws[1..] == ws;
      assert Sum([ws[0]]) == ws[0] by {
        assert [ws[0]][..0] == [];
      }
    }
  }

  /** In an undirected adjacency map every walk can be walked backwards, at the same weight. */
  lemma ReverseWalk(adj: Adjacency, p: seq<Node>, ws: seq<int>)
    requires Symmetric(adj)
    requires IsWalk(adj, p, ws)
    ensures IsWalk(adj, Reversed(p), Reversed(ws))
    ensures Sum(Reversed(ws)) == Sum(ws)
  {
    var n := |ws|;
    var rp, rws := Reversed(p), Reversed(ws);
    forall i | 0 <= i < n
      ensures rp[i] in adj && Edge(rp[i + 1], rws[i]) in adj[rp[i]]
    {
      var j := n - 1 - i;
      assert rp[i] == p[j + 1] && rp[i + 1] == p[j] && rws[i] == ws[j];
      assert Mult(adj, p[j], Edge(p[j + 1], ws[j])) > 0;
      assert Mult(adj, p[j + 1], Edge(p[j], ws[j])) > 0;
    }
    SumReversed(ws);
  }

  /** Reachability and the shortest weight between two nodes do not depend on the direction. */
  lemma ReachableSymmetric(adj: Adjacency, s: Node, t: Node)
    requires Symmetric(adj)
    ensures Reachable(adj, s, t) <==> Reachable(adj, t, s)
  {
    forall a, b | Reachable(adj, a, b)
      ensures Reachable(adj, b, a)
    {
      var p, ws :| WalkBetween(adj, p, ws, a, b);
      ReverseWalk(adj, p, ws);
      assert WalkBetween(adj, Reversed(p), Reversed(ws), b, a);
    }
  }

  lemma LowerBoundSymmetric(adj: Adjacency, s: Node, t: Node, d: int)
    requires Symmetric(adj)
    requires LowerBound(adj, s, t, d)
    ensures LowerBound(adj, t, s, d)
  {
    forall p, ws | WalkBetween(adj, p, ws, t, s)
      ensures d <= Sum(ws)
    {
      ReverseWalk(adj, p, ws);
      assert WalkBetween(adj, Reversed(p), Reversed(ws), s, t);
    }
  }

  // ---------------------------------------------------------------------------
  // Potentials: certificates of shortest walks
  // ---------------------------------------------------------------------------

  /** `h` never drops by more than an edge's weight along the edge. */
  ghost predicate Feasible(adj: Adjacency, h: map<Node, int>) {
    forall u, e :: u in adj && e in adj[u] ==> u in h && e.node in h && h[u] <= h[e.node] + e.weight
  }

  /** The `i`-th step of a walk is tight: `h` drops by exactly its weight. */
  ghost predicate TightStep(h: map<Node, int>, p: seq<Node>, ws: seq<int>, i: int)
    requires 0 <= i < |ws| && |p| == |ws| + 1
  {
    p[i] in h && p[i + 1] in h && h[p[i]] == h[p[i + 1]] + ws[i]
  }

  /** A feasible potential bounds the weight of every walk from below, and a
      walk meeting the bound uses only tight steps. */
  lemma {:induction false} PotentialBound(adj: Adjacency, h: map<Node, int>, p: seq<Node>, ws: seq<int>)
    requires Feasible(adj, h) && IsWalk(adj, p, ws) && p[0] in h
    ensures Last(p) in h && h[p[0]] - h[Last(p)] <= Sum(ws)
    ensures h[p[0]] - h[Last(p)] == Sum(ws) ==> forall i :: 0 <= i < |ws| ==> TightStep(h, p, ws, i)
    decreases |ws|
  {
    if ws != [] {
      var n := |ws|;
      var p', ws' := p[..n], ws[..n - 1];
      assert IsWalk(adj, p', ws') by {
        forall i | 0 <= i < |ws'|
          ensures p'[i] in adj && Edge(p'[i + 1], ws'[i]) in adj[p'[i]]
        {
          assert p'[i] == p[i] && p'[i + 1] == p[i + 1] && ws'[i] == ws[i];
        }
      }
      PotentialBound(adj, h, p', ws');
      assert Last(p') == p[n - 1];
      assert p[n - 1] in adj && Edge(p[n], ws[n - 1]) in adj[p[n - 1]];
      if h[p[0]] - h[Last(p)] == Sum(ws) {
        forall i | 0 <= i < |ws| ensures TightStep(h, p, ws, i) {
          if i < n - 1 {
            assert TightStep(h, p', ws', i);
          }
        }
      }
    }
  }

  /** The only tight steps out of the nodes of `route` lead along it, and its
      last node has none; the nodes of `route` are distinct. */
  ghost predicate TightRoute(adj: Adjacency, h: map<Node, int>, route: seq<Node>) {
    && |route| > 0
    && Distinct(route)
    && forall k, e :: 0 <= k < |route| && route[k] in adj && e in adj[route[k]] && route[k] in h && e.node in h
                      && h[route[k]] == h[e.node] + e.weight
                      ==> k + 1 < |route| && e.node == route[k + 1]
  }

  lemma {:induction false} TightPrefix(adj: Adjacency, h: map<Node, int>, route: seq<Node>, p: seq<Node>, ws: seq<int>, i: nat)
    requires TightRoute(adj, h, route) && IsWalk(adj, p, ws) && p[0] == route[0]
    requires forall j :: 0 <= j < |ws| ==> TightStep(h, p, ws, j)
    requires i < |p|
    ensures i < |route| && p[i] == route[i]
  {
    if i > 0 {
      TightPrefix(adj, h, route, p, ws, i - 1);
      assert TightStep(h, p, ws, i - 1);
      assert Edge(p[i], ws[i - 1]) in adj[p[i - 1]];
    }
  }

  /** A tight walk from the head of a tight route to its last node is the route. */
  lemma FollowsRoute(adj: Adjacency, h: map<Node, int>, route: seq<Node>, p: seq<Node>, ws: seq<int>)
    requires TightRoute(adj, h, route) && IsWalk(adj, p, ws)
    requires p[0] == route[0] && Last(p) == Last(route)
    requires forall j :: 0 <= j < |ws| ==> TightStep(h, p, ws, j)
    ensures p == route
  {
    forall i | 0 <= i < |p| ensures i < |route| && p[i] == route[i] {
      TightPrefix(adj, h, route, p, ws, i);
    }
    TightPrefix(adj, h, route, p, ws, |p| - 1);
  }

  /** When the route is itself a walk whose weight meets the potential's bound,
      it is the only walk of least weight between its ends. */
  lemma ShortestIsRoute(adj: Adjacency, h: map<Node, int>, route: seq<Node>, rws: seq<int>, p: seq<Node>, ws: seq<int>)
    requires Feasible(adj, h) && TightRoute(adj, h, route) && route[0] in h
    requires WalkBetween(adj, route, rws, route[0], Last(route))
    requires Last(route) in h && Sum(rws) == h[route[0]] - h[Last(route)]
    requires WalkBetween(adj, p, ws, route[0], Last(route))
    requires LowerBound(adj, route[0], Last(route), Sum(ws))
    ensures p == route && Sum(ws) == Sum(rws)
  {
    PotentialBound(adj, h, p, ws);
    FollowsRoute(adj, h, route, p, ws);
  }

  /** A node that is not a key is reached only by the empty walk, so from no other node. */
  lemma UnknownUnreachable(adj: Adjacency, s: Node, t: Node)
    requires Closed(adj) && t !in adj && t != s
    ensures !Reachable(adj, s, t)
  {
    forall p, ws | IsWalk(adj, p, ws) && p[0] == s
      ensures Last(p) != t
    {
      if |ws| > 0 {
        var n := |ws| - 1;
        assert p[n] in adj && Edge(p[n + 1], ws[n]) in adj[p[n]];
      }
    }
  }
}
