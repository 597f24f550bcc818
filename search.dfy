/**
 The shortest-path query of `Graph.dijkstra` and `Graph.constructPath`: a
 priority-queue search that fills a distance table and a predecessor table and
 stops when the target is popped, then a walk back along the predecessors.
 */
module ShortestPath {
  import opened Graphs

  /** An entry of the distance table; `Infinity` stands for `Integer.MAX_VALUE`. */
  datatype Distance = Infinity | Finite(value: nat)

  type DistanceTable = map<Node, Distance>

  /** `previousNodes`: `None` is the `null` the table is initialised with. */
  type PredecessorTable = map<Node, Option<Node>>

  /** What `constructPath` reports: the path with its hop count as "Distance", or "No path found.". */
  datatype PathResult = Found(path: seq<Node>, hops: nat) | NoPath

  /** `Integer.MAX_VALUE`, the value `distances` starts every node with. */
  const MaxInt: int := 0x7fff_ffff

  /** The `int` that Java keeps in `distances` for a table entry. */
  function AsInt(x: Distance): int {
    if x.Infinity? then MaxInt else x.value
  }

  /** The relaxation test `newDist < distances.get(node)`: while both sides stay
      below `Integer.MAX_VALUE`, it is Java's comparison of the stored ints. */
  predicate Shorter(d: nat, current: Distance): (b: bool)
    ensures d < MaxInt && (current.Finite? ==> current.value < MaxInt) ==> (b <==> d < AsInt(current))
  {
    current.Infinity? || d < current.value
  }

  /** The table knows a finite distance for `v` of at most `bound`. */
  predicate AtMost(dist: DistanceTable, v: Node, bound: int) {
    v in dist && dist[v].Finite? && dist[v].value <= bound
  }

  /** `previousNodes.get(v)`: `null` both for an absent key and for a stored `null`. */
  function Pred(prev: PredecessorTable, v: Node): (r: Option<Node>)
    ensures v !in prev ==> r == None
    ensures v in prev ==> r == prev[v]
  {
    if v in prev then prev[v] else None
  }

  /** `get` after `put`: the node just linked reads back its new predecessor,
      every other node its old one. */
  lemma PredAfterPut(prev: PredecessorTable, v: Node, u: Option<Node>, x: Node)
    ensures Pred(prev[v := u], x) == if x == v then u else Pred(prev, x)
  {
  }

  // ---------------------------------------------------------------------------
  // The priority queue
  // ---------------------------------------------------------------------------

  predicate IsLeast(e: Edge, pq: multiset<Edge>) {
    forall f :: f in pq ==> e.weight <= f.weight
  }

  lemma {:induction false} LeastExists(pq: multiset<Edge>)
    requires pq != multiset{}
    ensures exists e :: e in pq && IsLeast(e, pq)
    decreases |pq|
  {
    var x :| x in pq;
    var rest := pq - multiset{x};
    assert pq == rest + multiset{x};
    if rest == multiset{} {
      assert IsLeast(x, pq);
    } else {
      LeastExists(rest);
      var m :| m in rest && IsLeast(m, rest);
      var least := if m.weight <= x.weight then m else x;
      assert least in pq;
      forall f | f in pq ensures least.weight <= f.weight {
        if f != x {
          assert f in rest;
        }
      }
      assert IsLeast(least, pq);
    }
  }

  /** `PriorityQueue.poll` with keys compared on `weight`: removes one entry of
      least key. Which of several tied entries comes out is left open. */
  method Poll(pq: multiset<Edge>) returns (e: Edge, rest: multiset<Edge>)
    requires pq != multiset{}
    ensures e in pq && rest == pq - multiset{e} && |rest| == |pq| - 1
    ensures forall f :: f in pq ==> e.weight <= f.weight
  {
    LeastExists(pq);
    e :| e in pq && IsLeast(e, pq);
    rest := pq - multiset{e};
  }

  // ---------------------------------------------------------------------------
  // What the search keeps true
  // ---------------------------------------------------------------------------

  /** Every edge out of `v` has been relaxed against the current distance of `v`. */
  ghost predicate Relaxed(adj: Adjacency, dist: DistanceTable, v: Node) {
    && v in dist && dist[v].Finite?
    && forall e {:trigger e in adj[v]} :: v in adj && e in adj[v] ==> AtMost(dist, e.node, dist[v].value + e.weight)
  }

  /** Each node with a finite distance either still has its entry in the queue
      or has had all its edges relaxed. */
  ghost predicate FrontierCovered(adj: Adjacency, dist: DistanceTable, pq: multiset<Edge>) {
    forall v {:trigger Relaxed(adj, dist, v)} ::
      v in dist && dist[v].Finite? ==> Edge(v, dist[v].value) in pq || Relaxed(adj, dist, v)
  }

  /** Each queue entry carries a key no smaller than its node's current distance
      (stale entries carry a larger one) nor than `floor`. */
  ghost predicate QueueSound(dist: DistanceTable, pq: multiset<Edge>, floor: int) {
    forall e :: e in pq ==> AtMost(dist, e.node, e.weight) && floor <= e.weight
  }

  /** `previousNodes[v] == u` records the edge `u`–`v` that gave `v` its distance:
      `distances[v] == distances[u] + w` for an entry `Edge(v, w)` of `u`. */
  ghost predicate PrevSound(adj: Adjacency, dist: DistanceTable, prev: PredecessorTable) {
    forall v {:trigger Pred(prev, v)} :: Pred(prev, v).Some? ==>
      && v in dist && dist[v].Finite?
      && Pred(prev, v).value in dist && dist[Pred(prev, v).value].Finite?
      && Pred(prev, v).value in adj
      && exists w :: Edge(v, w) in adj[Pred(prev, v).value]
                     && dist[v].value == dist[Pred(prev, v).value].value + w
  }

  /** The link from `v` to its predecessor is backed by the edge of weight `via[v]`. */
  ghost predicate LinkBacked(adj: Adjacency, dist: DistanceTable, prev: PredecessorTable, via: map<Node, int>, v: Node)
    requires Pred(prev, v).Some?
  {
    var u := Pred(prev, v).value;
    && v in dist && dist[v].Finite? && v in via
    && u in dist && dist[u].Finite? && u in adj
    && Edge(v, via[v]) in adj[u]
    && dist[v].value == dist[u].value + via[v]
  }

  /** `PrevSound`, with the weight of each recorded edge given by `via`. */
  ghost predicate PrevSoundVia(adj: Adjacency, dist: DistanceTable, prev: PredecessorTable, via: map<Node, int>) {
    forall v {:trigger Pred(prev, v)} :: Pred(prev, v).Some? ==> LinkBacked(adj, dist, prev, via, v)
  }

  lemma PrevSoundFromVia(adj: Adjacency, dist: DistanceTable, prev: PredecessorTable, via: map<Node, int>)
    requires PrevSoundVia(adj, dist, prev, via)
    ensures PrevSound(adj, dist, prev)
  {
    forall v | Pred(prev, v).Some?
      ensures exists w :: Edge(v, w) in adj[Pred(prev, v).value]
                          && dist[v].value == dist[Pred(prev, v).value].value + w
    {
      assert Edge(v, via[v]) in adj[Pred(prev, v).value];
    }
  }

  /** Every predecessor link goes to a node of strictly smaller rank. */
  ghost predicate RankedBy(prev: PredecessorTable, rank: map<Node, nat>) {
    forall v {:trigger Pred(prev, v)} :: Pred(prev, v).Some? ==>
      v in rank && Pred(prev, v).value in rank && rank[Pred(prev, v).value] < rank[v]
  }

  /** Following predecessor links from any node ends at a node without one. */
  ghost predicate Acyclic(prev: PredecessorTable) {
    exists rank :: RankedBy(prev, rank)
  }

  /** Every node other than `start` that has a finite distance has a predecessor. */
  ghost predicate FiniteHasPred(start: Node, dist: DistanceTable, prev: PredecessorTable) {
    forall v {:trigger Pred(prev, v)} :: v in dist && dist[v].Finite? && v != start ==> Pred(prev, v).Some?
  }

  /** The tables `dijkstra` hands to `constructPath`. */
  ghost predicate SearchTables(adj: Adjacency, start: Node, dist: DistanceTable, prev: PredecessorTable) {
    && dist.Keys == adj.Keys + {start}
    && prev.Keys == adj.Keys
    && dist[start] == Finite(0)
    && Pred(prev, start) == None
    && PrevSound(adj, dist, prev)
    && Acyclic(prev)
    && FiniteHasPred(start, dist, prev)
  }

  // ---------------------------------------------------------------------------
  // Lemmas about the invariants
  // ---------------------------------------------------------------------------

  /** Lowering one distance keeps every other node relaxed. */
  lemma RelaxedAfterDecrease(adj: Adjacency, dist: DistanceTable, v: Node, d: nat, y: Node)
    requires Relaxed(adj, dist, y) && y != v
    requires v in dist && Shorter(d, dist[v])
    ensures Relaxed(adj, dist[v := Finite(d)], y)
  {
    var dist' := dist[v := Finite(d)];
    forall e | y in adj && e in adj[y]
      ensures AtMost(dist', e.node, dist'[y].value + e.weight)
    {
      assert AtMost(dist, e.node, dist[y].value + e.weight);
    }
  }

  /** The heart of the optimality argument. Along any walk from `start`, either
      the distance of the walk's last node is already at most the walk's weight,
      or the queue holds an entry whose key is at most that weight. */
  lemma {:induction false} WalkMeetsFrontier(adj: Adjacency, start: Node, dist: DistanceTable, pq: multiset<Edge>,
                                             p: seq<Node>, ws: seq<int>)
    requires NonNegative(adj)
    requires start in dist && dist[start] == Finite(0)
    requires FrontierCovered(adj, dist, pq)
    requires IsWalk(adj, p, ws) && p[0] == start
    ensures AtMost(dist, Last(p), Sum(ws)) || exists e :: e in pq && e.weight <= Sum(ws)
    decreases |ws|
  {
    if ws != [] {
      var n := |ws|;
      var p', ws' := p[..n], ws[..n - 1];
      assert IsWalk(adj, p', ws') by {
        forall i | 0 <= i < |ws'|
          ensures p'[i] in adj && Edge(p'[i + 1], ws'[i]) in adj[p'[i]]
        {
          assert p'[i] == p[i] && p'[i + 1] == p[i + 1] && ws'[i] == ws[i];
        }
      }
      WalkMeetsFrontier(adj, start, dist, pq, p', ws');
      var x, w := p[n - 1], ws[n - 1];
      assert Last(p') == x;
      assert x in adj && Edge(Last(p), w) in adj[x];
      assert w >= 0;
      assert Sum(ws) == Sum(ws') + w;
      if AtMost(dist, x, Sum(ws')) {
        if Edge(x, dist[x].value) in pq {
          assert Edge(x, dist[x].value).weight <= Sum(ws);
        } else {
          assert Relaxed(adj, dist, x);
          assert AtMost(dist, Last(p), dist[x].value + w);
        }
      }
    }
  }

  /** With the queue empty, every node reached by a walk from `start` has a
      distance no larger than the walk's weight. */
  lemma ExhaustedLowerBound(adj: Adjacency, start: Node, dist: DistanceTable, end: Node)
    requires NonNegative(adj)
    requires start in dist && dist[start] == Finite(0)
    requires FrontierCovered(adj, dist, multiset{})
    ensures forall p, ws :: WalkBetween(adj, p, ws, start, end) ==> AtMost(dist, end, Sum(ws))
  {
    forall p, ws | WalkBetween(adj, p, ws, start, end)
      ensures AtMost(dist, end, Sum(ws))
    {
      WalkMeetsFrontier(adj, start, dist, multiset{}, p, ws);
    }
  }

  /** When `end` is popped as a least entry, its distance is no larger than the
      weight of any walk from `start` to `end`. */
  lemma PoppedLowerBound(adj: Adjacency, start: Node, dist: DistanceTable, pq: multiset<Edge>, top: Edge)
    requires NonNegative(adj)
    requires start in dist && dist[start] == Finite(0)
    requires FrontierCovered(adj, dist, pq)
    requires top in pq && IsLeast(top, pq) && AtMost(dist, top.node, top.weight)
    ensures forall p, ws :: WalkBetween(adj, p, ws, start, top.node) ==> AtMost(dist, top.node, Sum(ws))
  {
    forall p, ws | WalkBetween(adj, p, ws, start, top.node)
      ensures AtMost(dist, top.node, Sum(ws))
    {
      WalkMeetsFrontier(adj, start, dist, pq, p, ws);
    }
  }

  // ---------------------------------------------------------------------------
  // The search (lines 72-98 of DijkstraGUI.java)
  // ---------------------------------------------------------------------------

  /** Ghost bookkeeping of the search: the key of the latest poll, the nodes
      whose edges have been scanned (the keys of `order`) with the position at
      which each was first scanned, and the weight of the edge behind each
      predecessor link. */
  datatype Ledger = Ledger(last: nat, order: map<Node, nat>, via: map<Node, int>) {
    ghost function Done(): set<Node> { order.Keys }
  }

  /** Predecessor links lead to scanned nodes, and between two scanned nodes to
      the one scanned first. */
  ghost predicate PrevOrdered(prev: PredecessorTable, order: map<Node, nat>) {
    forall v {:trigger Pred(prev, v)} :: Pred(prev, v).Some? ==>
      Pred(prev, v).value in order && (v in order ==> order[Pred(prev, v).value] < order[v])
  }

  ghost predicate OrderWellFormed(adj: Adjacency, g: Ledger) {
    && g.order.Keys <= adj.Keys
    && forall v {:trigger g.order[v]} :: v in g.order ==> g.order[v] < |g.order|
  }

  /** The invariant of the `while (!pq.isEmpty())` loop. */
  ghost predicate Invariant(adj: Adjacency, start: Node, g: Ledger,
                            dist: DistanceTable, prev: PredecessorTable, pq: multiset<Edge>) {
    && dist.Keys == adj.Keys + {start} && prev.Keys == adj.Keys
    && dist[start] == Finite(0) && Pred(prev, start) == None
    && QueueSound(dist, pq, g.last)
    && FrontierCovered(adj, dist, pq)
    && OrderWellFormed(adj, g)
    && (forall v {:trigger v in g.order} :: v in g.order ==> Relaxed(adj, dist, v) && dist[v].value <= g.last)
    && PrevSoundVia(adj, dist, prev, g.via)
    && PrevOrdered(prev, g.order)
    && FiniteHasPred(start, dist, prev)
  }

  /** The invariant of the inner `for` loop while the edges of the popped node `u`
      (distance `du`) are scanned; the first `i` of them have been relaxed.
      `pq0` is the queue after the poll, and `again` says `u` had been scanned before. */
  ghost predicate Scanning(adj: Adjacency, start: Node, u: Node, du: nat, i: nat, g: Ledger,
                           dist: DistanceTable, prev: PredecessorTable, pq: multiset<Edge>,
                           pq0: multiset<Edge>, again: bool) {
    && u in adj && i <= |adj[u]|
    && dist.Keys == adj.Keys + {start} && prev.Keys == adj.Keys
    && dist[start] == Finite(0) && Pred(prev, start) == None
    && dist[u] == Finite(du) && du <= g.last
    && (Relaxed(adj, dist, u) || du == g.last)
    && QueueSound(dist, pq, g.last)
    && (forall v {:trigger Relaxed(adj, dist, v)} ::
          v in dist && dist[v].Finite? && v != u ==> Edge(v, dist[v].value) in pq || Relaxed(adj, dist, v))
    && (forall j :: 0 <= j < i ==> AtMost(dist, adj[u][j].node, du + adj[u][j].weight))
    && OrderWellFormed(adj, g) && u in g.order
    && (forall v {:trigger v in g.order} :: v in g.order && v != u ==> Relaxed(adj, dist, v) && dist[v].value <= g.last)
    && PrevSoundVia(adj, dist, prev, g.via)
    && PrevOrdered(prev, g.order)
    && FiniteHasPred(start, dist, prev)
    && (again ==> Relaxed(adj, dist, u) && pq == pq0)
  }

  /** The bookkeeping when `u` is polled with key `k`. */
  function Enter(g: Ledger, u: Node, k: nat): Ledger {
    if u in g.order then g.(last := k)
    else Ledger(k, g.order[u := |g.order|], g.via)
  }

  lemma InvariantInitially(adj: Adjacency, start: Node, dist: DistanceTable, prev: PredecessorTable)
    requires dist.Keys == adj.Keys + {start} && prev.Keys == adj.Keys
    requires dist[start] == Finite(0)
    requires forall v :: v in dist && v != start ==> dist[v] == Infinity
    requires forall v :: v in prev ==> prev[v] == None
    ensures Invariant(adj, start, Ledger(0, map[], map[]), dist, prev, multiset{Edge(start, 0)})
  {
  }

  /** Polling a least entry `current` of node `u` other than `end`: `u` has a
      finite distance and edges to scan, and either it was relaxed already or it
      was polled with its own distance as key. */
  lemma PollStep(adj: Adjacency, start: Node, end: Node, g: Ledger,
                 dist: DistanceTable, prev: PredecessorTable, queued: multiset<Edge>, current: Edge)
    requires start in adj || start == end
    requires Invariant(adj, start, g, dist, prev, queued)
    requires current in queued && IsLeast(current, queued) && current.node != end
    ensures current.node in adj && current.node in dist && dist[current.node].Finite?
    ensures current.weight >= 0
    ensures Scanning(adj, start, current.node, dist[current.node].value, 0, Enter(g, current.node, current.weight),
                     dist, prev, queued - multiset{current}, queued - multiset{current}, current.node in g.order)
  {
    var u, k := current.node, current.weight;
    var pq := queued - multiset{current};
    assert AtMost(dist, u, k) && g.last <= k;
    var du := dist[u].value;
    if !Relaxed(adj, dist, u) {
      assert Edge(u, du) in queued;
    }
    var g' := Enter(g, u, k);
    forall v | v in dist && dist[v].Finite? && v != u
      ensures Edge(v, dist[v].value) in pq || Relaxed(adj, dist, v)
    {
      if Edge(v, dist[v].value) in queued {
        assert Edge(v, dist[v].value) != current;
      }
    }
    PollKeepsQueue(dist, queued, g.last, current);
    EnterKeepsOrder(adj, prev, g, u, k);
  }

  /** Removing a least entry leaves a queue whose keys are all at least its key. */
  lemma PollKeepsQueue(dist: DistanceTable, queued: multiset<Edge>, last: int, current: Edge)
    requires QueueSound(dist, queued, last) && current in queued && IsLeast(current, queued)
    ensures QueueSound(dist, queued - multiset{current}, current.weight)
  {
    forall e | e in queued - multiset{current}
      ensures AtMost(dist, e.node, e.weight) && current.weight <= e.weight
    {
      assert e in queued;
    }
  }

  /** Giving a newly scanned node the next position keeps the positions
      consistent and every predecessor link ordered. */
  lemma EnterKeepsOrder(adj: Adjacency, prev: PredecessorTable, g: Ledger, u: Node, k: nat)
    requires OrderWellFormed(adj, g) && PrevOrdered(prev, g.order) && u in adj
    ensures OrderWellFormed(adj, Enter(g, u, k)) && PrevOrdered(prev, Enter(g, u, k).order)
  {
  }

  /** Lowering the distance of an unscanned `v` and linking it to the scanned
      `u` keeps every predecessor link backed by an edge and ordered. */
  lemma RelaxKeepsLinks(adj: Adjacency, start: Node, u: Node, v: Node, w: int, d: nat,
                        order: map<Node, nat>, via: map<Node, int>,
                        dist: DistanceTable, prev: PredecessorTable)
    requires PrevSoundVia(adj, dist, prev, via) && PrevOrdered(prev, order) && FiniteHasPred(start, dist, prev)
    requires u in order && v !in order && v != start && v in dist
    requires u in adj && Edge(v, w) in adj[u] && u in dist && dist[u].Finite? && d == dist[u].value + w
    ensures PrevSoundVia(adj, dist[v := Finite(d)], prev[v := Some(u)], via[v := w])
    ensures PrevOrdered(prev[v := Some(u)], order)
    ensures FiniteHasPred(start, dist[v := Finite(d)], prev[v := Some(u)])
  {
    var dist', prev', via' := dist[v := Finite(d)], prev[v := Some(u)], via[v := w];
    assert u != v;
    forall y | Pred(prev', y).Some?
      ensures LinkBacked(adj, dist', prev', via', y)
    {
      if y != v {
        var x := Pred(prev, y).value;
        assert Pred(prev', y) == Pred(prev, y) && x in order && x != v;
        assert LinkBacked(adj, dist, prev, via, y);
      }
    }
    forall y | Pred(prev', y).Some?
      ensures Pred(prev', y).value in order && (y in order ==> order[Pred(prev', y).value] < order[y])
    {
      if y != v {
        assert Pred(prev', y) == Pred(prev, y);
      }
    }
    forall y | y in dist' && dist'[y].Finite? && y != start
      ensures Pred(prev', y).Some?
    {
      if y != v {
        assert dist'[y] == dist[y] && Pred(prev', y) == Pred(prev, y);
      }
    }
  }

  /** Queueing the new distance of `v` keeps every entry's key bounded below by
      its node's distance and by the key of the latest poll. */
  lemma RelaxKeepsQueue(dist: DistanceTable, pq: multiset<Edge>, last: int, v: Node, d: nat)
    requires QueueSound(dist, pq, last) && v in dist && Shorter(d, dist[v]) && last <= d
    ensures QueueSound(dist[v := Finite(d)], pq + multiset{Edge(v, d)}, last)
  {
    var dist' := dist[v := Finite(d)];
    forall e | e in pq + multiset{Edge(v, d)}
      ensures AtMost(dist', e.node, e.weight) && last <= e.weight
    {
      if e != Edge(v, d) {
        assert e in pq && AtMost(dist, e.node, e.weight);
      }
    }
  }

  /** Relaxing the `i`-th edge of `u`, when it gives its neighbour a shorter distance. */
  lemma RelaxStep(adj: Adjacency, start: Node, u: Node, du: nat, i: nat, g: Ledger,
                  dist: DistanceTable, prev: PredecessorTable, pq: multiset<Edge>, pq0: multiset<Edge>, again: bool,
                  newDist: nat)
    requires NonNegative(adj)
    requires Scanning(adj, start, u, du, i, g, dist, prev, pq, pq0, again) && i < |adj[u]|
    requires newDist == du + adj[u][i].weight
    requires adj[u][i].node in dist && Shorter(newDist, dist[adj[u][i].node])
    ensures Scanning(adj, start, u, du, i + 1, g.(via := g.via[adj[u][i].node := adj[u][i].weight]),
                     dist[adj[u][i].node := Finite(newDist)], prev[adj[u][i].node := Some(u)],
                     pq + multiset{Edge(adj[u][i].node, newDist)}, pq0, again)
  {
    var e := adj[u][i];
    var v := e.node;
    assert e in adj[u];
    assert !Relaxed(adj, dist, u);
    assert v != u && v != start && v !in g.order;
    var dist' := dist[v := Finite(newDist)];
    forall y | y != v && Relaxed(adj, dist, y)
      ensures Relaxed(adj, dist', y)
    {
      RelaxedAfterDecrease(adj, dist, v, newDist, y);
    }
    RelaxKeepsQueue(dist, pq, g.last, v, newDist);
    RelaxKeepsLinks(adj, start, u, v, e.weight, newDist, g.order, g.via, dist, prev);
  }

  /** Skipping the `i`-th edge of `u`, when it does not shorten its neighbour's distance. */
  lemma SkipStep(adj: Adjacency, start: Node, u: Node, du: nat, i: nat, g: Ledger,
                 dist: DistanceTable, prev: PredecessorTable, pq: multiset<Edge>, pq0: multiset<Edge>, again: bool,
                 newDist: nat)
    requires Scanning(adj, start, u, du, i, g, dist, prev, pq, pq0, again) && i < |adj[u]|
    requires newDist == du + adj[u][i].weight
    requires adj[u][i].node in dist && !Shorter(newDist, dist[adj[u][i].node])
    ensures Scanning(adj, start, u, du, i + 1, g, dist, prev, pq, pq0, again)
  {
  }

  /** Once every edge of `u` is scanned, `u` is relaxed and the loop invariant holds again. */
  lemma ScanFinished(adj: Adjacency, start: Node, u: Node, du: nat, g: Ledger,
                     dist: DistanceTable, prev: PredecessorTable, pq: multiset<Edge>, pq0: multiset<Edge>, again: bool)
    requires u in adj
    requires Scanning(adj, start, u, du, |adj[u]|, g, dist, prev, pq, pq0, again)
    ensures Invariant(adj, start, g, dist, prev, pq)
  {
    assert Relaxed(adj, dist, u) by {
      forall e | e in adj[u]
        ensures AtMost(dist, e.node, du + e.weight)
      {
        var j :| 0 <= j < |adj[u]| && adj[u][j] == e;
      }
    }
  }

  /** What the loop invariant says about the tables handed to `constructPath`. */
  lemma InvariantGivesTables(adj: Adjacency, start: Node, g: Ledger,
                             dist: DistanceTable, prev: PredecessorTable, pq: multiset<Edge>)
    requires Invariant(adj, start, g, dist, prev, pq)
    ensures SearchTables(adj, start, dist, prev)
  {
    PrevSoundFromVia(adj, dist, prev, g.via);
    var rank := map v | v in dist :: if v in g.order then g.order[v] else |g.order|;
    assert RankedBy(prev, rank);
  }

  /** No entry of `after` is larger than the same entry of `before`: distances only go down. */
  ghost predicate NoLarger(before: DistanceTable, after: DistanceTable) {
    && before.Keys == after.Keys
    && forall v :: v in before && before[v].Finite? ==> after[v].Finite? && after[v].value <= before[v].value
  }

  /** Every known node starts at `Infinity` with a `null` predecessor. */
  method InitTables(adj: Adjacency) returns (dist: DistanceTable, prev: PredecessorTable)
    ensures dist.Keys == prev.Keys == adj.Keys
    ensures forall v :: v in dist ==> dist[v] == Infinity && prev[v] == None
  {
    dist, prev := map[], map[];
    var keys := adj.Keys;
    while keys != {}
      invariant keys <= adj.Keys
      invariant dist.Keys == prev.Keys == adj.Keys - keys
      invariant forall v :: v in dist ==> dist[v] == Infinity && prev[v] == None
      decreases keys
    {
      var node :| node in keys;
      dist := dist[node := Infinity];
      prev := prev[node := None];
      keys := keys - {node};
    }
  }

  /** The inner loop of the search: relaxes the edges of the polled node `u` in
      list order, lowering a neighbour's distance, recording `u` as its
      predecessor and queueing it whenever the edge gives a shorter distance. */
  method ScanEdges(adj: Adjacency, start: Node, u: Node, ghost du: nat, ghost g0: Ledger,
                   dist0: DistanceTable, prev0: PredecessorTable, pq1: multiset<Edge>,
                   ghost pq0: multiset<Edge>, ghost again: bool)
    returns (dist: DistanceTable, prev: PredecessorTable, pq: multiset<Edge>, ghost g: Ledger)
    requires Closed(adj) && NonNegative(adj)
    requires Scanning(adj, start, u, du, 0, g0, dist0, prev0, pq1, pq0, again)
    ensures Scanning(adj, start, u, du, |adj[u]|, g, dist, prev, pq, pq0, again)
    ensures g.order == g0.order
    ensures again ==> pq == pq0
    ensures NoLarger(dist0, dist)
  {
    dist, prev, pq, g := dist0, prev0, pq1, g0;
    var edges := adj[u];
    for i := 0 to |edges|
      invariant Scanning(adj, start, u, du, i, g, dist, prev, pq, pq0, again)
      invariant g.order == g0.order
      invariant NoLarger(dist0, dist)
    {
      var edge := edges[i];
      assert edge in adj[u];
      var newDist: nat := dist[u].value + edge.weight;
      if Shorter(newDist, dist[edge.node]) {
        RelaxStep(adj, start, u, du, i, g, dist, prev, pq, pq0, again, newDist);
        dist := dist[edge.node := Finite(newDist)];
        prev := prev[edge.node := Some(u)];
        pq := pq + multiset{Edge(edge.node, newDist)};
        g := g.(via := g.via[edge.node := edge.weight]);
      } else {
        SkipStep(adj, start, u, du, i, g, dist, prev, pq, pq0, again, newDist);
      }
    }
  }

  /** Scanning a node for the first time shrinks the set of unscanned nodes. */
  lemma FewerUnscanned(keys: set<Node>, done: set<Node>, u: Node)
    requires u in keys && u !in done
    ensures |keys - (done + {u})| < |keys - done|
  {
    assert keys - done == (keys - (done + {u})) + {u};
  }

  /** The measure of the outer loop goes down with every round: the first scan
      of a node shrinks the unscanned nodes, a repeated one leaves the queue
      one entry shorter. */
  lemma EnterShrinks(keys: set<Node>, g0: Ledger, u: Node, k: nat, pq: multiset<Edge>, queued: multiset<Edge>)
    requires u in keys
    requires u in g0.Done() ==> |pq| < |queued|
    ensures Enter(g0, u, k).Done() == g0.Done() + {u}
    ensures |keys - Enter(g0, u, k).Done()| < |keys - g0.Done()|
         || (Enter(g0, u, k).Done() == g0.Done() && |pq| < |queued|)
  {
    if u !in g0.Done() {
      FewerUnscanned(keys, g0.Done(), u);
    }
  }

  /** One round of the outer loop for a polled entry `current` whose node `u`
      is not `end`: the edges of `u` are scanned. `u` joins the scanned nodes;
      if it was scanned before, its edges change nothing. */
  method Visit(adj: Adjacency, start: Node, end: Node, ghost g0: Ledger,
               dist0: DistanceTable, prev0: PredecessorTable, ghost queued: multiset<Edge>,
               current: Edge, pq1: multiset<Edge>)
    returns (dist: DistanceTable, prev: PredecessorTable, pq: multiset<Edge>, ghost g: Ledger)
    requires Closed(adj) && NonNegative(adj)
    requires start in adj || start == end
    requires Invariant(adj, start, g0, dist0, prev0, queued)
    requires current in queued && IsLeast(current, queued) && current.node != end
    requires pq1 == queued - multiset{current}
    ensures Invariant(adj, start, g, dist, prev, pq)
    ensures g.Done() == g0.Done() + {current.node}
    ensures |adj.Keys - g.Done()| < |adj.Keys - g0.Done()| || (g.Done() == g0.Done() && |pq| < |queued|)
    ensures NoLarger(dist0, dist)
  {
    var u := current.node;
    PollStep(adj, start, end, g0, dist0, prev0, queued, current);
    ghost var again := u in g0.order;
    g := Enter(g0, u, current.weight);
    ghost var du := dist0[u].value;
    dist, prev, pq, g := ScanEdges(adj, start, u, du, g, dist0, prev0, pq1, pq1, again);
    ScanFinished(adj, start, u, du, g, dist, prev, pq, pq1, again);
    EnterShrinks(adj.Keys, g0, u, current.weight, pq, queued);
  }

  /** The body of `dijkstra` up to the call of `constructPath`. The distance of
      `end` it leaves is at most the weight of every walk from `start` to `end`;
      in particular it is `Infinity` only when no such walk exists. */
  method Search(adj: Adjacency, start: Node, end: Node) returns (dist: DistanceTable, prev: PredecessorTable)
    requires Closed(adj) && NonNegative(adj)
    requires start in adj || start == end
    ensures SearchTables(adj, start, dist, prev)
    ensures forall p, ws :: WalkBetween(adj, p, ws, start, end) ==> AtMost(dist, end, Sum(ws))
  {
    dist, prev := InitTables(adj);
    dist := dist[start := Finite(0)];
    var pq := multiset{Edge(start, 0)};
    ghost var g := Ledger(0, map[], map[]);
    InvariantInitially(adj, start, dist, prev);
    ghost var found := false;

    while pq != multiset{}
      invariant !found
      invariant Invariant(adj, start, g, dist, prev, pq)
      decreases |adj.Keys - g.Done()|, |pq|
    {
      ghost var queued := pq;
      var current;
      current, pq := Poll(pq);
      var u := current.node;
      if u == end {
        PoppedLowerBound(adj, start, dist, queued, current);
        InvariantGivesTables(adj, start, g, dist, prev, queued);
        found := true;
        break;
      }
      dist, prev, pq, g := Visit(adj, start, end, g, dist, prev, queued, current, pq);
    }
    if !found {
      ExhaustedLowerBound(adj, start, dist, end);
      InvariantGivesTables(adj, start, g, dist, prev, pq);
    }
  }

  // ---------------------------------------------------------------------------
  // Predecessor chains and the path (lines 103-111)
  // ---------------------------------------------------------------------------

  /** `p` is the chain of predecessor links that ends at its last node, read
      forwards: `p[0]` has no predecessor and each later node has the one before it. */
  ghost predicate IsPredChain(prev: PredecessorTable, p: seq<Node>) {
    && |p| > 0
    && Pred(prev, p[0]) == None
    && forall i :: 0 < i < |p| ==> Pred(prev, p[i]) == Some(p[i - 1])
  }

  /** Dropping the last node of a chain leaves the chain to its predecessor. */
  lemma ChainPrefix(prev: PredecessorTable, p: seq<Node>)
    requires IsPredChain(prev, p) && |p| > 1
    ensures IsPredChain(prev, p[..|p| - 1])
    ensures Pred(prev, Last(p)) == Some(Last(p[..|p| - 1]))
  {
    var p' := p[..|p| - 1];
    forall i | 0 < i < |p'| ensures Pred(prev, p'[i]) == Some(p'[i - 1]) {
      assert p'[i] == p[i] && p'[i - 1] == p[i - 1];
    }
  }

  /** There is only one such chain to any node. */
  lemma {:induction false} ChainUnique(prev: PredecessorTable, p: seq<Node>, q: seq<Node>)
    requires IsPredChain(prev, p) && IsPredChain(prev, q) && Last(p) == Last(q)
    ensures p == q
    decreases |p|
  {
    if |p| == 1 && |q| == 1 {
      assert p == [Last(p)] && q == [Last(q)];
    } else if |p| > 1 && |q| > 1 {
      var p', q' := p[..|p| - 1], q[..|q| - 1];
      ChainPrefix(prev, p);
      ChainPrefix(prev, q);
      ChainUnique(prev, p', q');
      assert p == p' + [Last(p)];
      assert q == q' + [Last(q)];
    } else {
      // one chain is a single node without predecessor, the other ends in a link
      if |p| > 1 { ChainPrefix(prev, p); } else { ChainPrefix(prev, q); }
      assert false;
    }
  }

  /** A ranking lets every node be followed back to the start of its chain. */
  lemma {:induction false} ChainExists(prev: PredecessorTable, rank: map<Node, nat>, v: Node) returns (p: seq<Node>)
    requires RankedBy(prev, rank)
    ensures IsPredChain(prev, p) && Last(p) == v
    decreases if v in rank then rank[v] + 1 else 0
  {
    match Pred(prev, v)
    case None =>
      p := [v];
    case Some(u) =>
      var p' := ChainExists(prev, rank, u);
      p := p' + [v];
      assert IsPredChain(prev, p) by {
        forall i | 0 < i < |p| ensures Pred(prev, p[i]) == Some(p[i - 1]) {
          if i < |p'| { assert p[i] == p'[i] && p[i - 1] == p'[i - 1]; }
        }
      }
  }

  /** Along a chain, ranks grow strictly from every node to every later one. */
  lemma {:induction false} ChainRanksIncrease(prev: PredecessorTable, rank: map<Node, nat>, p: seq<Node>, i: nat, j: nat)
    requires RankedBy(prev, rank) && IsPredChain(prev, p) && i < j < |p|
    ensures p[i] in rank && p[j] in rank && rank[p[i]] < rank[p[j]]
    decreases j - i
  {
    assert Pred(prev, p[j]) == Some(p[j - 1]);
    if i < j - 1 {
      ChainRanksIncrease(prev, rank, p, i, j - 1);
    }
  }

  /** With acyclic links a chain never returns to a node, so the path
      `constructPath` reports lists no node twice. */
  lemma ChainDistinct(prev: PredecessorTable, p: seq<Node>)
    requires Acyclic(prev) && IsPredChain(prev, p)
    ensures Distinct(p)
  {
    var rank :| RankedBy(prev, rank);
    forall i, j | 0 <= i < j < |p| ensures p[i] != p[j] {
      ChainRanksIncrease(prev, rank, p, i, j);
    }
  }

  /** A chain of predecessor links is a walk, and its weight is the difference
      between the distances of its two ends. */
  lemma {:induction false} ChainWalk(adj: Adjacency, dist: DistanceTable, prev: PredecessorTable, p: seq<Node>)
    returns (ws: seq<int>)
    requires PrevSound(adj, dist, prev)
    requires IsPredChain(prev, p) && Last(p) in dist && dist[Last(p)].Finite?
    ensures IsWalk(adj, p, ws)
    ensures p[0] in dist && dist[p[0]].Finite?
    ensures dist[Last(p)].value == dist[p[0]].value + Sum(ws)
    decreases |p|
  {
    if |p| == 1 {
      ws := [];
    } else {
      var p' := p[..|p| - 1];
      var u, v := Last(p'), Last(p);
      assert Pred(prev, v) == Some(u);
      assert IsPredChain(prev, p') by {
        forall i | 0 < i < |p'| ensures Pred(prev, p'[i]) == Some(p'[i - 1]) {
          assert p'[i] == p[i] && p'[i - 1] == p[i - 1];
        }
      }
      var ws' := ChainWalk(adj, dist, prev, p');
      var w :| Edge(v, w) in adj[u] && dist[v].value == dist[u].value + w;
      ws := ws' + [w];
      assert ws[..|ws| - 1] == ws';
      assert IsWalk(adj, p, ws) by {
        forall i | 0 <= i < |ws|
          ensures p[i] in adj && Edge(p[i + 1], ws[i]) in adj[p[i]]
        {
          if i < |ws'| {
            assert p[i] == p'[i] && p[i + 1] == p'[i + 1] && ws[i] == ws'[i];
          }
        }
      }
    }
  }

  /** Every finite distance the search leaves is the weight of a walk from `start`:
      the chain of predecessors of that node. */
  lemma FiniteDistanceIsWalkWeight(adj: Adjacency, start: Node, dist: DistanceTable, prev: PredecessorTable, v: Node)
    requires SearchTables(adj, start, dist, prev)
    requires v in dist && dist[v].Finite?
    ensures exists p, ws :: WalkBetween(adj, p, ws, start, v) && Sum(ws) == dist[v].value
  {
    var rank :| RankedBy(prev, rank);
    var p := ChainExists(prev, rank, v);
    var ws := ChainWalk(adj, dist, prev, p);
    assert p[0] == start;
    assert WalkBetween(adj, p, ws, start, v);
  }

  /** `constructPath`: collect `end` and its predecessors until a `null` link,
      reverse, and report the path with its hop count, or "No path found." when
      the reversed list does not begin with `start`. */
  method ConstructPath(prev: PredecessorTable, start: Node, end: Node) returns (r: PathResult)
    requires Acyclic(prev)
    ensures r.Found? ==> IsPredChain(prev, r.path) && r.path[0] == start && Last(r.path) == end
    ensures r.Found? ==> r.hops == |r.path| - 1
    ensures r.NoPath? ==> exists p :: IsPredChain(prev, p) && Last(p) == end && p[0] != start
  {
    ghost var rank :| RankedBy(prev, rank);
    var back: seq<Node> := [];
    var at: Option<Node> := Some(end);
    while at.Some?
      invariant back == [] ==> at == Some(end)
      invariant back != [] ==> back[0] == end && at == Pred(prev, Last(back))
      invariant forall i :: 0 < i < |back| ==> Pred(prev, back[i - 1]) == Some(back[i])
      decreases if at.None? then 0 else if at.value in rank then rank[at.value] + 2 else 1
    {
      back := back + [at.value];
      at := Pred(prev, at.value);
    }
    var path := Reversed(back);
    assert IsPredChain(prev, path) by {
      forall i | 0 < i < |path| ensures Pred(prev, path[i]) == Some(path[i - 1]) {
        assert path[i] == back[|back| - 1 - i] && path[i - 1] == back[|back| - i];
      }
    }
    if |path| == 0 || path[0] != start {
      r := NoPath;
    } else {
      r := Found(path, |path| - 1);
    }
  }

  // ---------------------------------------------------------------------------
  // The text shown to the user (line 109-110)
  // ---------------------------------------------------------------------------

  function DigitChar(d: nat): char
    requires d < 10
  {
    "0123456789"[d]
  }

  /** The decimal numeral of `n`, as Java's string concatenation writes an int. */
  function Decimal(n: nat): (s: string)
    ensures |s| > 0 && forall i :: 0 <= i < |s| ==> '0' <= s[i] <= '9'
    ensures s[0] == '0' <==> n == 0
  {
    if n < 10 then [DigitChar(n)] else Decimal(n / 10) + [DigitChar(n % 10)]
  }

  /** The value a decimal numeral denotes. */
  function DecimalValue(s: string): nat
    requires forall i :: 0 <= i < |s| ==> '0' <= s[i] <= '9'
  {
    if s == [] then 0 else 10 * DecimalValue(s[..|s| - 1]) + (Last(s) as int - '0' as int)
  }

  lemma {:induction false} DecimalRoundTrip(n: nat)
    ensures DecimalValue(Decimal(n)) == n
  {
    if n >= 10 {
      DecimalRoundTrip(n / 10);
      var s := Decimal(n);
      assert s[..|s| - 1] == Decimal(n / 10);
    }
  }

  /** `String.join(sep, parts)`: the parts in order with `sep` between neighbours. */
  function Join(parts: seq<string>, sep: string): (r: string)
    ensures |parts| > 0 ==> parts[0] <= r
  {
    if |parts| == 0 then "" else if |parts| == 1 then parts[0] else parts[0] + sep + Join(parts[1..], sep)
  }

  /** Joining a part in front adds it and one separator. */
  lemma JoinCons(x: string, rest: seq<string>, sep: string)
    requires |rest| > 0
    ensures Join([x] + rest, sep) == x + sep + Join(rest, sep)
  {
    assert ([x] + rest)[1..] == rest;
  }

  /** Joining a part at the back adds one separator and the part, which is how
      `String.join` builds its result left to right. */
  lemma {:induction false} JoinSnoc(parts: seq<string>, x: string, sep: string)
    requires |parts| > 0
    ensures Join(parts + [x], sep) == Join(parts, sep) + sep + x
    decreases |parts|
  {
    if |parts| == 1 {
      assert (parts + [x])[1..] == [x];
    } else {
      assert (parts + [x])[1..] == parts[1..] + [x];
      JoinSnoc(parts[1..], x, sep);
    }
  }

  /** The string `dijkstra` returns for a path result. */
  function Format(r: PathResult): (s: string)
    ensures s == "No path found." <==> r.NoPath?
    ensures r.Found? ==> |s| > 15 && s[..15] == "Shortest path: "
  {
    match r
    case NoPath => "No path found."
    case Found(path, hops) => "Shortest path: " + Join(path, " -> ") + "\nDistance: " + Decimal(hops)
  }

  /** The hop count can be read back from the end of the text. */
  lemma FormattedHops(r: PathResult)
    requires r.Found?
    ensures |Decimal(r.hops)| <= |Format(r)|
    ensures DecimalValue(Format(r)[|Format(r)| - |Decimal(r.hops)|..]) == r.hops
  {
    var s, d := Format(r), Decimal(r.hops);
    assert s[|s| - |d|..] == d;
    DecimalRoundTrip(r.hops);
  }

  // ---------------------------------------------------------------------------
  // What `dijkstra` reports
  // ---------------------------------------------------------------------------

  /** A chain that ends at a node with a finite distance starts at `start`. */
  lemma ChainFromStart(adj: Adjacency, start: Node, dist: DistanceTable, prev: PredecessorTable, p: seq<Node>)
    requires SearchTables(adj, start, dist, prev)
    requires IsPredChain(prev, p) && Last(p) in dist && dist[Last(p)].Finite?
    ensures p[0] == start
  {
    var ws := ChainWalk(adj, dist, prev, p);
    assert FiniteHasPred(start, dist, prev);
  }

  /** Combining the tables the search leaves with what `constructPath` builds
      from them: a path is found exactly when `end` is reachable from `start`;
      it is then a walk of least weight that visits no node twice, and a
      single node when `start` and `end` coincide. */
  lemma ReportedPath(adj: Adjacency, start: Node, end: Node, dist: DistanceTable, prev: PredecessorTable, r: PathResult)
    requires SearchTables(adj, start, dist, prev)
    requires forall p, ws :: WalkBetween(adj, p, ws, start, end) ==> AtMost(dist, end, Sum(ws))
    requires r.Found? ==> IsPredChain(prev, r.path) && r.path[0] == start && Last(r.path) == end
    requires r.Found? ==> r.hops == |r.path| - 1
    requires r.NoPath? ==> exists p :: IsPredChain(prev, p) && Last(p) == end && p[0] != start
    ensures r.Found? <==> Reachable(adj, start, end)
    ensures r.Found? ==> exists ws :: WalkBetween(adj, r.path, ws, start, end) && LowerBound(adj, start, end, Sum(ws))
    ensures r.Found? ==> Distinct(r.path)
    ensures start == end ==> r == Found([start], 0)
  {
    if r.Found? {
      var path := r.path;
      ChainDistinct(prev, path);
      if |path| > 1 {
        assert Pred(prev, end) == Some(path[|path| - 2]);
      }
      var ws := ChainWalk(adj, dist, prev, path);
      assert WalkBetween(adj, path, ws, start, end);
      assert LowerBound(adj, start, end, Sum(ws)) by {
        forall p', ws' | WalkBetween(adj, p', ws', start, end) ensures Sum(ws) <= Sum(ws') {
          assert AtMost(dist, end, Sum(ws'));
        }
      }
      if start == end {
        assert IsPredChain(prev, [start]);
        ChainUnique(prev, path, [start]);
      }
    } else {
      var q :| IsPredChain(prev, q) && Last(q) == end && q[0] != start;
      if Reachable(adj, start, end) {
        var p, ws :| WalkBetween(adj, p, ws, start, end);
        assert AtMost(dist, end, Sum(ws));
        ChainFromStart(adj, start, dist, prev, q);
        assert false;
      }
      if start == end {
        var walk: seq<Node> := [start];
        assert WalkBetween(adj, walk, [], start, end);
        assert false;
      }
    }
  }
}
