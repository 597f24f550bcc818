# Dijkstra GUI graph, modelled in Dafny

This project models the `Graph` inner class of `DijkstraGUI.java`. The class holds an undirected weighted graph as an adjacency map from node labels to edge lists. It offers three operations:

- `addEdge` appends an edge at both of its ends.
- `dijkstra` runs a priority-queue search from `start` and stops when `end` is polled or the queue is empty.
- `constructPath` follows the predecessor table back from `end` and reports either the path with its hop count or "No path found.".

The project has three modules:

- `Graphs` (`graphs.dfy`) holds the shared vocabulary:
  - node labels, the `Edge` record and the adjacency map;
  - the functional effect of `addEdge` (`WithEdge`) and the symmetry it keeps;
  - walks through the map and their weights, including walking them backwards;
  - potentials: certificates that a given route is the only walk of least weight.
- `ShortestPath` (`search.dfy`) holds the query:
  - the queue is a multiset with a `Poll` that removes some entry of least key;
  - the search is the method `Search`, with its outer loop, the visit of a polled node (`Visit`) and the inner relaxation loop (`ScanEdges`). These carry the loop invariants, and lemmas prove that each step keeps them;
  - the predecessor walk is the method `ConstructPath`, and `ChainDistinct` shows the path it reports has no repeated node;
  - the result text is `Format`, built with `Join` (`String.join`) and `Decimal` (the numeral of an `int`);
  - `ReportedPath` ties the search tables to what `ConstructPath` reports.
- `DijkstraGUI` (`dijkstra_gui.dfy`) holds the class:
  - `Graph`, with the field `adj` and the methods `AddEdge` and `Dijkstra`;
  - `Demo`, which builds the window's six-edge graph (lines 43-49) and proves the two texts it answers.

A `Dijkstra` result is `Found(path, hops)` or `NoPath`, and the returned text is `Format` of it. `Dijkstra` proves these properties:

- A path is found exactly when `end` is reachable from `start`.
- A found path is a walk from `start` to `end`, and no walk between them weighs less.
- A found path lists no node twice: it is the predecessor chain of `end`, which has no cycle.
- `hops` is the number of nodes minus one.
- `start == end` gives `[start]` with 0 hops. This holds even for a label that no `addEdge` call named: such a label queried against itself is reported as a zero-hop path, "Shortest path: Z\nDistance: 0".
- An `end` that is not a key and differs from `start` gives `NoPath`.

Java's `Integer.MAX_VALUE` as "infinity" is the `Infinity` constructor of `Distance`. A `null` predecessor is `None`. `previousNodes.get` of an absent key is `Pred`, which also yields `None`.

## Model

| member | source | states |
|---|---|---|
| `DijkstraGUI.Graph.constructor` | DijkstraGUI.java:61-63 | a new graph has an empty adjacency map, which is symmetric |
| `DijkstraGUI.Graph.AddEdge` | DijkstraGUI.java:65-70 | the new map is `WithEdge` of the old one, and the map stays symmetric |
| `Graphs.WithEdge` | DijkstraGUI.java:65-70 | both endpoints become keys; `to` is appended to the list of `from` and `from` to the list of `to` (for a self-loop both entries land in one list); every other key keeps its list |
| `Graphs.MultWithEdge` | DijkstraGUI.java:66-69 | each list gains exactly one copy of its new entry and nothing else: no deduplication, so a repeated call makes a parallel edge |
| `Graphs.WithEdgeSymmetric` | DijkstraGUI.java:68-69 | adding an edge keeps "`u` lists `Edge(v, w)` as often as `v` lists `Edge(u, w)`" |
| `Graphs.SymmetricIsClosed` | DijkstraGUI.java:68-69 | in a symmetric map every neighbour is itself a key, so `distances.get(edge.node)` always finds an entry |
| `Graphs.ReverseWalk` | DijkstraGUI.java:69 | in the undirected map every walk reversed is a walk of the same weight |
| `Graphs.ReachableSymmetric` | DijkstraGUI.java:69 | `end` is reachable from `start` exactly when `start` is reachable from `end` |
| `Graphs.LowerBoundSymmetric` | DijkstraGUI.java:69 | a lower bound on the walks from `s` to `t` bounds the walks from `t` to `s` |
| `Graphs.UnknownUnreachable` | DijkstraGUI.java:105-109 | a node that `addEdge` never named is reachable from no other node |
| `ShortestPath.Shorter` | DijkstraGUI.java:91-92 | while both sides stay below `Integer.MAX_VALUE`, the test agrees with Java's `newDist < distances.get(edge.node)` on the stored ints, `Infinity` being `MAX_VALUE` |
| `ShortestPath.Pred` | DijkstraGUI.java:105 | `previousNodes.get` yields `null` for an absent key and otherwise the stored entry |
| `ShortestPath.PredAfterPut` | DijkstraGUI.java:94 | after `previousNodes.put(v, u)`, `get(v)` yields `u` and every other node keeps its entry |
| `ShortestPath.Poll` | DijkstraGUI.java:73-85 | `poll` removes one entry whose key is no larger than any other key in the queue |
| `ShortestPath.InitTables` | DijkstraGUI.java:77-80 | every key of the adjacency map gets distance `Infinity` and predecessor `None` |
| `ShortestPath.ScanEdges` | DijkstraGUI.java:90-97 | relaxing the edges of the polled node in list order leaves every edge of it relaxed, keeps the search invariant, and makes no distance larger |
| `ShortestPath.Visit` | DijkstraGUI.java:85-97 | one round of the outer loop keeps the search invariant, makes no distance larger, and shrinks the measure (unscanned nodes, then queue size) |
| `ShortestPath.Search` | DijkstraGUI.java:72-98 | the tables keep `distances[start] == 0` and `previousNodes[start] == null`; each predecessor link is an edge with `dist[v] == dist[u] + w`; the links have no cycle; every finite node but `start` has a predecessor; and `dist[end]` is at most the weight of every walk from `start` to `end` |
| `ShortestPath.WalkMeetsFrontier` | DijkstraGUI.java:84-97 | along any walk from `start`, either the last node's distance is within the walk's weight or the queue holds an entry with a key within it |
| `ShortestPath.PoppedLowerBound` | DijkstraGUI.java:85-88 | when `end` is polled as a least entry, its distance is no larger than any walk to it |
| `ShortestPath.ExhaustedLowerBound` | DijkstraGUI.java:84 | when the queue runs dry, every walk to `end` weighs at least `dist[end]` |
| `ShortestPath.RelaxStep` | DijkstraGUI.java:91-95 | a shorter distance, the predecessor and the queue entry written together keep the invariant of the inner loop |
| `ShortestPath.RelaxKeepsLinks` | DijkstraGUI.java:93-94 | linking an unscanned node to the scanned node it was reached from keeps every link backed by an edge of the right weight and ordered by scan time, hence acyclic |
| `ShortestPath.PollStep` | DijkstraGUI.java:85-90 | a polled node other than `end` has a finite distance; it was either relaxed already or polled with its own distance as key |
| `ShortestPath.ChainUnique` | DijkstraGUI.java:105-107 | there is only one predecessor chain ending at a given node |
| `ShortestPath.ChainExists` | DijkstraGUI.java:105-107 | with acyclic links, following predecessors from any node ends at a node without one |
| `ShortestPath.ChainWalk` | DijkstraGUI.java:94-107 | a predecessor chain is a walk whose weight is the difference between the distances of its two ends |
| `ShortestPath.FiniteDistanceIsWalkWeight` | DijkstraGUI.java:91-94 | every finite distance the search leaves is the weight of a walk from `start` |
| `ShortestPath.ConstructPath` | DijkstraGUI.java:103-111 | a found path is the predecessor chain of `end`, starts at `start`, and has a hop count of its length minus one; "No path found." means the chain of `end` starts elsewhere |
| `Graphs.Reversed` | DijkstraGUI.java:108 | `Collections.reverse`: same length, and position `k` holds what position `length - 1 - k` held |
| `ShortestPath.Join` | DijkstraGUI.java:110 | `String.join(sep, parts)`: the joined text begins with the first part; its partner `JoinSnoc` states the left-to-right build |
| `ShortestPath.JoinCons` | DijkstraGUI.java:110 | `String.join`: putting a part in front adds the part and one separator before the rest |
| `ShortestPath.JoinSnoc` | DijkstraGUI.java:110 | `String.join`: appending a part adds one separator and the part, the left-to-right way Java builds it |
| `ShortestPath.Decimal` | DijkstraGUI.java:110 | the numeral of a hop count is a non-empty string of digits that starts with `0` only for zero, as Java writes an `int` |
| `ShortestPath.Format` | DijkstraGUI.java:109-110 | the text is "No path found." exactly for `NoPath`; otherwise it begins with "Shortest path: " |
| `ShortestPath.FormattedHops` | DijkstraGUI.java:110 | the hop count can be read back from the decimal numeral at the end of the text |
| `ShortestPath.DecimalRoundTrip` | DijkstraGUI.java:110 | the numeral written for the hop count denotes the hop count |
| `ShortestPath.ChainDistinct` | DijkstraGUI.java:105-108 | with acyclic links, a predecessor chain lists no node twice |
| `ShortestPath.ReportedPath` | DijkstraGUI.java:100-111 | with the search tables, the path reported is found iff `end` is reachable, is a least-weight walk from `start` to `end` with no repeated node, and is `[start]` when `start == end` |
| `DijkstraGUI.Graph.Dijkstra` | DijkstraGUI.java:72-101 | found iff reachable; a found path is a walk of least weight from `start` to `end` that lists no node twice, and its hop count is its length minus one; `start == end` gives `[start]`, 0 hops, whether or not `start` is a key; an `end` that is not a key and differs from `start` gives `NoPath`; the text is `Format` of the result |
| `Graphs.ShortestIsRoute` | DijkstraGUI.java:44-49 | a route whose weight meets a feasible potential's bound is the only least-weight walk between its ends; it certifies the demo answers |
| `DijkstraGUI.DemoBuilt` | DijkstraGUI.java:43-49 | the six `addEdge` calls build the lists A:[B1,C4], B:[A1,C2,D5], C:[A4,B2,D1], D:[B5,C1,E3], E:[D3] |
| `DijkstraGUI.DemoRouteToD` | DijkstraGUI.java:44-49 | every result `Dijkstra` may give for A to D is the path A, B, C, D with 3 hops |
| `DijkstraGUI.DemoRouteToE` | DijkstraGUI.java:44-49 | every result `Dijkstra` may give for A to E is the path A, B, C, D, E with 4 hops |
| `DijkstraGUI.Demo` | DijkstraGUI.java:43-49 | the window's graph answers "Shortest path: A -> B -> C -> D\nDistance: 3" and "Shortest path: A -> B -> C -> D -> E\nDistance: 4" |

## Left out

- The Swing frame is not modelled: the text fields, the button listener, `trim()`, `main` and the result area (lines 1-56 except the graph construction). `Demo` stands in for the graph construction at lines 43-49.
- The order of `PriorityQueue.poll` among entries with equal keys, and `HashMap` iteration order, are left open. `Poll` may return any least entry, and `InitTables` visits keys in any order. Every property is proved for every such choice. The hop count of a reported path can depend on these ties when two least-weight walks have different numbers of edges, so the model does not claim that `dijkstra(A, E)` and `dijkstra(E, A)` report equal hop counts. `ReachableSymmetric` and `LowerBoundSymmetric` state what symmetry does guarantee: reachability and least weight are the same in both directions.
- For the same reason, repeated calls with the same arguments are not proved to return identical text. Java's queue is deterministic, but its tie order is not modelled.
- `Integer.MAX_VALUE` is modelled as a separate `Infinity` value. Distances are unbounded naturals, so `int` overflow in `distances.get(currentNode) + edge.weight` is not modelled.
- Negative weights are excluded: `Search` and `Dijkstra` require `NonNegative`. In the undirected map a single negative edge between `u` and `v` is already a negative cycle `u`, `v`, `u`. If `end` is one of its endpoints, the search can still stop: on A:[Edge(B, -1)], B:[Edge(A, -1)], `dijkstra("A", "B")` polls (A, 0), sets `B` to -1, polls (B, -1), stops at line 88 and reports "Shortest path: A -> B" with distance 1. If `end` is not an endpoint, then after the search polls an endpoint the keys of `u` and `v` fall with every round. Once they are below every other entry, `end` is never again the least entry. The loop at lines 84-98 then keeps queueing entries until the `int` sum wraps around, roughly 2^31 / |w| rounds later. The termination measure of `Search` (unscanned nodes, then queue size) decreases only because weights are non-negative.
- An unknown `start` different from `end` is excluded by the precondition `start in adj || start == end`. In Java, `adjacencyList.get(start)` returns null there and the loop at line 90 throws.
- `Collections.reverse` is the function `Reversed` on the collected sequence, not an in-place reversal of a list; `ConstructPath` assigns the reversed sequence to a new variable.
- `ShortestPath.Format`: the contract states only the "No path found." case and the "Shortest path: " prefix. `FormattedHops` states the trailing numeral for every result. `TextToD` and `TextToE` state the whole text for the two demo results. For other paths, the arrow-joined middle and the "\nDistance: " separator are given only by the body of `Format`.
- `ShortestPath.Join`: its own contract states only that the text begins with the first part. Prefix and suffix facts together made the proofs of the demo texts too costly. `JoinCons` and `JoinSnoc` state how each further part and separator enter the text.
- `ShortestPath.Search`: the property "every table entry only decreases" is stated per round, by `Visit` and `ScanEdges` (`NoLarger`), not as a postcondition of `Search` itself.
