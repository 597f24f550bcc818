/**
 The `Graph` inner class of `DijkstraGUI`: an undirected weighted graph kept as
 an adjacency map that `addEdge` grows in place, and the `dijkstra` query that
 answers with the text shown in the result area.
 */
module DijkstraGUI {
  import opened Graphs
  import opened ShortestPath

  class Graph {
    /** `adjacencyList`. */
    var adj: Adjacency

    /** Every edge is stored at both of its ends, as many times as it was added. */
    ghost predicate Valid()
      reads this
    {
      Symmetric(adj)
    }

    constructor()
      ensures Valid() && adj == map[]
    {
      adj := map[];
    }

    /** `addEdge(from, to, weight)`: makes both endpoints known and appends the
        edge to the list of each, without checking for an existing copy. The
        steps follow the Java statement by statement; `WithEdge` is their
        specification, and `MultWithEdge` and `WithEdgeSymmetric` its properties. */
    method AddEdge(from: Node, to: Node, weight: int)
      requires Valid()
      modifies this
      ensures Valid()
      ensures adj == WithEdge(old(adj), from, to, weight)
    {
      WithEdgeSymmetric(adj, from, to, weight);
      if from !in adj {
        adj := adj[from := []];
      }
      if to !in adj {
        adj := adj[to := []];
      }
      adj := adj[from := adj[from] + [Edge(to, weight)]];
      adj := adj[to := adj[to] + [Edge(from, weight)]];
    }

    /** `dijkstra(start, end)`: searches from `start` until `end` is polled or
        the queue runs dry, then follows the predecessors back from `end`.
        A path is reported exactly when `end` can be reached; it starts at
        `start`, ends at `end`, is a walk of least total weight that visits no
        node twice, and reports its number of hops (not its weight) as the
        distance. */
    method Dijkstra(start: Node, end: Node) returns (r: PathResult, text: string)
      requires Valid() && NonNegative(adj)
      requires start in adj || start == end
      ensures r.Found? <==> Reachable(adj, start, end)
      ensures r.Found? ==> r.hops == |r.path| - 1
      ensures r.Found? ==> exists ws :: WalkBetween(adj, r.path, ws, start, end) && LowerBound(adj, start, end, Sum(ws))
      ensures r.Found? ==> Distinct(r.path)
      ensures start == end ==> r == Found([start], 0)
      ensures end !in adj && end != start ==> r == NoPath
      ensures text == Format(r)
    {
      SymmetricIsClosed(adj);
      if end !in adj && end != start {
        UnknownUnreachable(adj, start, end);
      }
      var dist, prev := Search(adj, start, end);
      r := ConstructPath(prev, start, end);
      ReportedPath(adj, start, end, dist, prev, r);
      text := Format(r);
    }
  }

  // ---------------------------------------------------------------------------
  // The graph the window builds (lines 43-49)
  // ---------------------------------------------------------------------------

  /** The adjacency map after the six `addEdge` calls, lists in insertion order. */
  function DemoAdjacency(): Adjacency {
    map[
      "A" := [Edge("B", 1), Edge("C", 4)],
      "B" := [Edge("A", 1), Edge("C", 2), Edge("D", 5)],
      "C" := [Edge("A", 4), Edge("B", 2), Edge("D", 1)],
      "D" := [Edge("B", 5), Edge("C", 1), Edge("E", 3)],
      "E" := [Edge("D", 3)]
    ]
  }

  /** Distances to `D` and to `E`, used as potentials. */
  function ToD(): map<Node, int> {
    map["A" := 4, "B" := 3, "C" := 1, "D" := 0, "E" := 3]
  }

  function ToE(): map<Node, int> {
    map["A" := 7, "B" := 6, "C" := 4, "D" := 3, "E" := 0]
  }

  /** The adjacency map after the first `k` of the six calls at lines 44-49;
      after all six it is `DemoAdjacency()`. */
  function AfterCalls(k: nat): Adjacency
    requires k <= 5
  {
    match k
    case 0 => map[]
    case 1 => map["A" := [Edge("B", 1)], "B" := [Edge("A", 1)]]
    case 2 => map["A" := [Edge("B", 1), Edge("C", 4)], "B" := [Edge("A", 1)], "C" := [Edge("A", 4)]]
    case 3 => map["A" := [Edge("B", 1), Edge("C", 4)], "B" := [Edge("A", 1), Edge("C", 2)],
                  "C" := [Edge("A", 4), Edge("B", 2)]]
    case 4 => map["A" := [Edge("B", 1), Edge("C", 4)], "B" := [Edge("A", 1), Edge("C", 2), Edge("D", 5)],
                  "C" := [Edge("A", 4), Edge("B", 2)], "D" := [Edge("B", 5)]]
    case _ => map["A" := [Edge("B", 1), Edge("C", 4)], "B" := [Edge("A", 1), Edge("C", 2), Edge("D", 5)],
                  "C" := [Edge("A", 4), Edge("B", 2), Edge("D", 1)], "D" := [Edge("B", 5), Edge("C", 1)]]
  }

  /** Each call turns the map after the calls before it into the next one. */
  lemma DemoStep1()
    ensures WithEdge(AfterCalls(0), "A", "B", 1) == AfterCalls(1)
  {
    var m := WithEdge(AfterCalls(0), "A", "B", 1);
    assert m.Keys == {"A", "B"};
    assert m["A"] == [Edge("B", 1)];
    assert m["B"] == [Edge("A", 1)];
  }

  lemma DemoStep2()
    ensures WithEdge(AfterCalls(1), "A", "C", 4) == AfterCalls(2)
  {
    var m0 := AfterCalls(1);
    var m := WithEdge(m0, "A", "C", 4);
    assert m.Keys == {"A", "B", "C"};
    assert m["A"] == [Edge("B", 1), Edge("C", 4)];
    assert m["C"] == [Edge("A", 4)];
    assert m["B"] == m0["B"];
  }

  lemma DemoStep3()
    ensures WithEdge(AfterCalls(2), "B", "C", 2) == AfterCalls(3)
  {
    var m0 := AfterCalls(2);
    var m := WithEdge(m0, "B", "C", 2);
    assert m.Keys == {"A", "B", "C"};
    assert m["B"] == [Edge("A", 1), Edge("C", 2)];
    assert m["C"] == [Edge("A", 4), Edge("B", 2)];
    assert m["A"] == m0["A"];
  }

  lemma DemoStep4()
    ensures WithEdge(AfterCalls(3), "B", "D", 5) == AfterCalls(4)
  {
    var m0 := AfterCalls(3);
    var m := WithEdge(m0, "B", "D", 5);
    assert m.Keys == {"A", "B", "C", "D"};
    assert m["B"] == [Edge("A", 1), Edge("C", 2), Edge("D", 5)];
    assert m["D"] == [Edge("B", 5)];
    assert m["A"] == m0["A"];
    assert m["C"] == m0["C"];
  }

  lemma DemoStep5()
    ensures WithEdge(AfterCalls(4), "C", "D", 1) == AfterCalls(5)
  {
    var m0 := AfterCalls(4);
    var m := WithEdge(m0, "C", "D", 1);
    assert m.Keys == {"A", "B", "C", "D"};
    assert m["C"] == [Edge("A", 4), Edge("B", 2), Edge("D", 1)];
    assert m["D"] == [Edge("B", 5), Edge("C", 1)];
    assert m["A"] == m0["A"];
    assert m["B"] == m0["B"];
  }

  lemma DemoStep6()
    ensures WithEdge(AfterCalls(5), "D", "E", 3) == DemoAdjacency()
  {
    var m0 := AfterCalls(5);
    var m := WithEdge(m0, "D", "E", 3);
    assert m.Keys == {"A", "B", "C", "D", "E"};
    assert m["D"] == [Edge("B", 5), Edge("C", 1), Edge("E", 3)];
    assert m["E"] == [Edge("D", 3)];
    assert m["A"] == m0["A"];
    assert m["B"] == m0["B"];
    assert m["C"] == m0["C"];
  }

  /** The six calls of lines 44-49 build exactly `DemoAdjacency()`. */
  lemma DemoBuilt()
    ensures WithEdge(WithEdge(WithEdge(WithEdge(WithEdge(WithEdge(map[],
              "A", "B", 1), "A", "C", 4), "B", "C", 2), "B", "D", 5), "C", "D", 1), "D", "E", 3)
         == DemoAdjacency()
  {
    var m := map[];
    assert m == AfterCalls(0);
    DemoStep1();
    m := WithEdge(m, "A", "B", 1);
    assert m == AfterCalls(1);
    DemoStep2();
    m := WithEdge(m, "A", "C", 4);
    assert m == AfterCalls(2);
    DemoStep3();
    m := WithEdge(m, "B", "C", 2);
    assert m == AfterCalls(3);
    DemoStep4();
    m := WithEdge(m, "B", "D", 5);
    assert m == AfterCalls(4);
    DemoStep5();
    m := WithEdge(m, "C", "D", 1);
    assert m == AfterCalls(5);
    DemoStep6();
    m := WithEdge(m, "D", "E", 3);
  }

  /** The five labels are distinct strings. */
  lemma Labels()
    ensures "A" != "B" && "A" != "C" && "A" != "D" && "A" != "E"
    ensures "B" != "C" && "B" != "D" && "B" != "E"
    ensures "C" != "D" && "C" != "E" && "D" != "E"
  {
    assert "A"[0] != "B"[0] && "A"[0] != "C"[0] && "A"[0] != "D"[0] && "A"[0] != "E"[0];
    assert "B"[0] != "C"[0] && "B"[0] != "D"[0] && "B"[0] != "E"[0];
    assert "C"[0] != "D"[0] && "C"[0] != "E"[0] && "D"[0] != "E"[0];
  }

  /** Each list of the demo graph, spelled out entry by entry. */
  lemma DemoEntries(u: Node, e: Edge)
    requires u in DemoAdjacency() && e in DemoAdjacency()[u]
    ensures u == "A" ==> e == Edge("B", 1) || e == Edge("C", 4)
    ensures u == "B" ==> e == Edge("A", 1) || e == Edge("C", 2) || e == Edge("D", 5)
    ensures u == "C" ==> e == Edge("A", 4) || e == Edge("B", 2) || e == Edge("D", 1)
    ensures u == "D" ==> e == Edge("B", 5) || e == Edge("C", 1) || e == Edge("E", 3)
    ensures u == "E" ==> e == Edge("D", 3)
    ensures u == "A" || u == "B" || u == "C" || u == "D" || u == "E"
  {
  }

  lemma DemoNonNegative()
    ensures NonNegative(DemoAdjacency())
  {
    forall u, e | u in DemoAdjacency() && e in DemoAdjacency()[u] ensures e.weight >= 0 {
      DemoEntries(u, e);
    }
  }

  /** The distances to `D` are a potential whose tight edges lead from `A` to `D`
      along A, B, C, D only. */
  lemma ToDFeasible()
    ensures Feasible(DemoAdjacency(), ToD())
  {
    forall u, e: Edge | u in DemoAdjacency() && e in DemoAdjacency()[u]
      ensures u in ToD() && e.node in ToD() && ToD()[u] <= ToD()[e.node] + e.weight
    {
      Labels();
      DemoEntries(u, e);
    }
  }

  lemma ToDTight()
    ensures TightRoute(DemoAdjacency(), ToD(), ["A", "B", "C", "D"])
  {
    RouteDistinct(["A", "B", "C", "D"]);
    TightSteps(ToD(), ["A", "B", "C", "D"]);
  }

  /** The distances to `E`, whose tight edges lead along A, B, C, D, E only. */
  lemma ToEFeasible()
    ensures Feasible(DemoAdjacency(), ToE())
  {
    forall u, e: Edge | u in DemoAdjacency() && e in DemoAdjacency()[u]
      ensures u in ToE() && e.node in ToE() && ToE()[u] <= ToE()[e.node] + e.weight
    {
      Labels();
      DemoEntries(u, e);
    }
  }

  lemma ToETight()
    ensures TightRoute(DemoAdjacency(), ToE(), ["A", "B", "C", "D", "E"])
  {
    RouteDistinct(["A", "B", "C", "D", "E"]);
    TightSteps(ToE(), ["A", "B", "C", "D", "E"]);
  }

  /** A prefix of A, B, C, D, E has no repeated label. */
  lemma RouteDistinct(route: seq<Node>)
    requires route == ["A", "B", "C", "D"] || route == ["A", "B", "C", "D", "E"]
    ensures Distinct(route)
  {
    Labels();
  }

  /** The tight edges out of the route's nodes, checked list by list. */
  lemma TightSteps(h: map<Node, int>, route: seq<Node>)
    requires (h == ToD() && route == ["A", "B", "C", "D"]) || (h == ToE() && route == ["A", "B", "C", "D", "E"])
    ensures forall k, e :: 0 <= k < |route| && route[k] in DemoAdjacency() && e in DemoAdjacency()[route[k]]
                           && route[k] in h && e.node in h && h[route[k]] == h[e.node] + e.weight
                           ==> k + 1 < |route| && e.node == route[k + 1]
  {
    forall k, e: Edge | 0 <= k < |route| && route[k] in DemoAdjacency() && e in DemoAdjacency()[route[k]]
                        && route[k] in h && e.node in h && h[route[k]] == h[e.node] + e.weight
      ensures k + 1 < |route| && e.node == route[k + 1]
    {
      Labels();
      DemoEntries(route[k], e);
    }
  }

  /** A result meeting the contract of `Dijkstra` is the tight route, when a
      potential certifies that route as the only walk of least weight. */
  lemma ReportedRoute(adj: Adjacency, h: map<Node, int>, route: seq<Node>, rws: seq<int>, r: PathResult)
    requires Feasible(adj, h) && TightRoute(adj, h, route) && route[0] in h && Last(route) in h
    requires WalkBetween(adj, route, rws, route[0], Last(route)) && Sum(rws) == h[route[0]] - h[Last(route)]
    requires r.Found? <==> Reachable(adj, route[0], Last(route))
    requires r.Found? ==> r.hops == |r.path| - 1
    requires r.Found? ==> exists ws :: WalkBetween(adj, r.path, ws, route[0], Last(route))
                                       && LowerBound(adj, route[0], Last(route), Sum(ws))
    ensures r == Found(route, |route| - 1)
  {
    assert Reachable(adj, route[0], Last(route));
    var ws :| WalkBetween(adj, r.path, ws, route[0], Last(route)) && LowerBound(adj, route[0], Last(route), Sum(ws));
    ShortestIsRoute(adj, h, route, rws, r.path, ws);
  }

  /** The route A, B, C, D joined with arrows. */
  lemma JoinedToD()
    ensures Join(["A", "B", "C", "D"], " -> ") == "A -> B -> C -> D"
  {
    var sep := " -> ";
    assert Join(["D"], sep) == "D";
    JoinCons("C", ["D"], sep);
    assert ["C"] + ["D"] == ["C", "D"];
    JoinCons("B", ["C", "D"], sep);
    assert ["B"] + ["C", "D"] == ["B", "C", "D"];
    JoinCons("A", ["B", "C", "D"], sep);
    assert ["A"] + ["B", "C", "D"] == ["A", "B", "C", "D"];
  }

  /** The route A, B, C, D, E joined with arrows: one more part at the back. */
  lemma JoinedToE()
    ensures Join(["A", "B", "C", "D", "E"], " -> ") == "A -> B -> C -> D -> E"
  {
    JoinedToD();
    JoinSnoc(["A", "B", "C", "D"], "E", " -> ");
    assert ["A", "B", "C", "D"] + ["E"] == ["A", "B", "C", "D", "E"];
  }

  lemma TextToD()
    ensures Format(Found(["A", "B", "C", "D"], 3)) == "Shortest path: A -> B -> C -> D\nDistance: 3"
  {
    JoinedToD();
    assert Decimal(3) == "3";
    var head := "Shortest path: " + "A -> B -> C -> D";
    assert head == "Shortest path: A -> B -> C -> D";
    var tail := "\nDistance: " + "3";
    assert tail == "\nDistance: 3";
    assert head + tail == "Shortest path: A -> B -> C -> D\nDistance: 3";
  }

  lemma TextToE()
    ensures Format(Found(["A", "B", "C", "D", "E"], 4)) == "Shortest path: A -> B -> C -> D -> E\nDistance: 4"
  {
    JoinedToE();
    assert Decimal(4) == "4";
    var head := "Shortest path: " + "A -> B -> C -> D -> E";
    assert head == "Shortest path: A -> B -> C -> D -> E";
    var tail := "\nDistance: " + "4";
    assert tail == "\nDistance: 4";
    assert head + tail == "Shortest path: A -> B -> C -> D -> E\nDistance: 4";
  }

  /** The route A, B, C, D, E and its prefix are walks of the window's graph. */
  lemma DemoWalks()
    ensures WalkBetween(DemoAdjacency(), ["A", "B", "C", "D"], [1, 2, 1], "A", "D")
    ensures WalkBetween(DemoAdjacency(), ["A", "B", "C", "D", "E"], [1, 2, 1, 3], "A", "E")
  {
    Labels();
    var adj := DemoAdjacency();
    assert Edge("B", 1) in adj["A"] && Edge("C", 2) in adj["B"];
    assert Edge("D", 1) in adj["C"] && Edge("E", 3) in adj["D"];
  }

  /** The weights of the two routes meet the potentials' bounds. */
  lemma DemoWeights()
    ensures "A" in ToD() && "D" in ToD() && Sum([1, 2, 1]) == ToD()["A"] - ToD()["D"]
    ensures "A" in ToE() && "E" in ToE() && Sum([1, 2, 1, 3]) == ToE()["A"] - ToE()["E"]
  {
    Labels();
    assert Sum([1, 2, 1]) == 4 by {
      assert [1, 2, 1][..2] == [1, 2] && [1, 2][..1] == [1] && [1][..0] == [];
    }
    assert Sum([1, 2, 1, 3]) == 7 by {
      assert [1, 2, 1, 3][..3] == [1, 2, 1];
      assert [1, 2, 1][..2] == [1, 2] && [1, 2][..1] == [1] && [1][..0] == [];
    }
  }

  /** Any result the contract of `Dijkstra` allows for A to D on the window's graph. */
  lemma DemoRouteToD(r: PathResult)
    requires r.Found? <==> Reachable(DemoAdjacency(), "A", "D")
    requires r.Found? ==> r.hops == |r.path| - 1
    requires r.Found? ==> exists ws :: WalkBetween(DemoAdjacency(), r.path, ws, "A", "D")
                                       && LowerBound(DemoAdjacency(), "A", "D", Sum(ws))
    ensures r == Found(["A", "B", "C", "D"], 3)
  {
    ToDFeasible();
    ToDTight();
    DemoWalks();
    DemoWeights();
    var route: seq<Node> := ["A", "B", "C", "D"];
    ReportedRoute(DemoAdjacency(), ToD(), route, [1, 2, 1], r);
  }

  /** Any result the contract of `Dijkstra` allows for A to E on the window's graph. */
  lemma DemoRouteToE(r: PathResult)
    requires r.Found? <==> Reachable(DemoAdjacency(), "A", "E")
    requires r.Found? ==> r.hops == |r.path| - 1
    requires r.Found? ==> exists ws :: WalkBetween(DemoAdjacency(), r.path, ws, "A", "E")
                                       && LowerBound(DemoAdjacency(), "A", "E", Sum(ws))
    ensures r == Found(["A", "B", "C", "D", "E"], 4)
  {
    ToEFeasible();
    ToETight();
    DemoWalks();
    DemoWeights();
    var route: seq<Node> := ["A", "B", "C", "D", "E"];
    ReportedRoute(DemoAdjacency(), ToE(), route, [1, 2, 1, 3], r);
  }

  /** The window's graph answers the queries A to D and A to E with the paths
      A, B, C, D (3 hops) and A, B, C, D, E (4 hops). */
  method Demo() returns (toD: string, toE: string)
    ensures toD == "Shortest path: A -> B -> C -> D\nDistance: 3"
    ensures toE == "Shortest path: A -> B -> C -> D -> E\nDistance: 4"
  {
    var graph := new Graph();
    graph.AddEdge("A", "B", 1);
    graph.AddEdge("A", "C", 4);
    graph.AddEdge("B", "C", 2);
    graph.AddEdge("B", "D", 5);
    graph.AddEdge("C", "D", 1);
    graph.AddEdge("D", "E", 3);
    DemoBuilt();
    DemoNonNegative();
    TextToD();
    TextToE();
    var r: PathResult;
    r, toD := graph.Dijkstra("A", "D");
    DemoRouteToD(r);
    r, toE := graph.Dijkstra("A", "E");
    DemoRouteToE(r);
  }
}
