# IRoadTrip graph engine in Dafny

IRoadTrip answers two questions about land travel between countries:
- the capital-to-capital distance between two bordering countries;
- the shortest chain of border crossings between two countries, with one
  line per leg.

This project models the engine behind those answers in `IRoadTrip.java`:
- the name lookups: `index` over the country table and `num` over the state
  table;
- the two bubble sorts: `sort0` over state names and `sort1` within each
  block of the distance table;
- the two-phase binary search of the distance table: `findDistance` and its
  twin `Trip.Distance`;
- graph building: `execute`, `nextTo` and the ordered `AdjList.add`;
- the Dijkstra queue: `add`, `remove`, `decrease`, `deleteMin`, `isNotDone`;
- `Trip.findMinPaths` (Dijkstra's algorithm);
- the reachability check `explore`/`noPath`;
- `Trip.path` and `getDistance`.

Each file is one module:

| file | module | what it holds |
|---|---|---|
| `string_order.dfy` | `StringOrder` | `String.compareTo` as a strict total order on `seq<char>` |
| `search.dfy` | `Search` | the lower-bound halving loop that every lookup shares, and a linear reference scan |
| `bubble_sort.dfy` | `BubbleSort` | the neighbour-swapping bubble sort of `sort0`/`sort1`, generic in its order |
| `names.dfy` | `Names` | country table and state table; `index`, `num`, `sort0` |
| `distances.dfy` | `Distances` | the distance table, its block layout, the probe and `sort1` |
| `graph.dfy` | `Graph` | `gNode` lists, `AdjList.add`, walks and their weights |
| `queue.dfy` | `PriorityQueue` | the doubly linked Dijkstra queue as a sequence sorted by distance |
| `dijkstra.dfy` | `Dijkstra` | `findMinPaths` and its loop invariants |
| `reach.dfy` | `Reach` | `explore` and `noPath` |
| `builder.dfy` | `Builder` | `nextTo`, `findDistance`, `execute`, `getDistance` |
| `route.dfy` | `Route` | `Trip.path` |

Modelling decisions:
- Arrays and linked lists are sequences: an adjacency list is the sequence of
  its nodes from head to tail, and the queue is the sequence of its `qNode`s
  from head to tail.
- `visited` in `explore` is the set of visited countries.
- The dataset sizes are not constants. Table lengths are whatever the
  sequences hold. The block layout of the distance table is a parameter
  `range`. `Distances.SourceRange` is the layout written in the program:
  202-row blocks, with block 64 twice as long.
- An exception is an explicit result:
  - a read past the end of the distance table is `Lookup.Fault`;
  - an exception while building the graph is `Outcome.Crash`, carrying the
    country and neighbour position that caused it.
- A distance of `-1` ("not found") is `Lookup.Missing`.
- Java `int` arithmetic is unbounded here. `findMinPaths` takes a ghost
  bound `maxW` on edge weights with `|graph| * maxW < Integer.MAX_VALUE`,
  so no label sum can wrap. Unreached countries keep `IntMax` (`Integer.MAX_VALUE`).

Exceptions and edge cases the model keeps, as the code has them:
- `execute` evaluates `countries[-1]` for a neighbour name that is not a
  country and throws (IRoadTrip.java:79). That is
  `BuildError.UnknownNeighbour`.
- `num` never reports absence: it returns the number of the row the search
  lands on (`Names.StateNumber`). A country with no state-table row is
  therefore looked up with another state's number.
- `path` with the same known country at both ends throws: `prev[v0]` is -1,
  so the unwinding steps to -1 and then reads `minPath[-1]`
  (IRoadTrip.java:650-653). That is `Route.OutOfBounds`.
- `AdjList.add` follows a null link when the list holds one node and the new
  node has the same `vrtx`. `Graph.Insert` requires that this case does not
  occur. `execute` reports it as `BuildError.DuplicateNeighbour`.

## Model

| member | source | states |
|---|---|---|
| StringOrder.LessTotal | IRoadTrip.java:209 | two strings that `compareTo` orders neither way are equal, so the order the name tables are sorted by is total |
| StringOrder.LessTransitive | IRoadTrip.java:270 | the strict `compareTo` order is transitive, which the sorted-table searches rely on |
| Search.Search | IRoadTrip.java:207-214 | the halving loop stays in `[lo, hi]`, lands on an element at or above the key unless it ends at `hi`, and on a sorted slice every element before it is below the key: it finds the lower bound |
| BubbleSort.Sort | IRoadTrip.java:264-284 | the bubble sort returns a permutation of its input in which no later element comes strictly before an earlier one |
| Names.Index | IRoadTrip.java:202-216 | `index` returns -1 or a position holding the name; on a sorted table it finds the name exactly when the name is present, and at its first occurrence |
| Names.StateNumber | IRoadTrip.java:246-261 | `num` answers the number of a row at or above the name (or the last row), every earlier row being below it; on a sorted table a listed name gets the number of its first row |
| Names.SortStates | IRoadTrip.java:264-284 | `sort0` leaves a permutation of the state rows, sorted by name, each name keeping its number |
| Distances.SourceRangeAscending | IRoadTrip.java:176-177 | the program's block layout starts at row 0 and each block begins right after the previous one ends |
| Distances.SourceLayoutSize | IRoadTrip.java:18-19 | the 202 blocks of the program's layout end exactly at row 41005, i.e. fill the 41006-row table |
| Distances.Probe | IRoadTrip.java:555-591 | equal numbers give 0; on ascending markers the probe faults exactly when no marker reaches the first number; a found distance is the distance of a row for the second number inside a block whose marker reaches the first number, and on ascending markers it is the first such block |
| Distances.ProbeComplete | IRoadTrip.java:555-591 | with sorted markers and a sorted block, the probe finds a distance exactly when the block of the first number holds a row for the second, and then answers that row's distance |
| Distances.SortBlock | IRoadTrip.java:295-311 | one block of `sort1` comes out ordered by column 1 and holds the same (column 1, column 2) pairs; rows outside it and column 0 do not move |
| Distances.SortBlocks | IRoadTrip.java:287-313 | after `sort1` every block is ordered by column 1 and holds the same pairs as before, and column 0 and the markers are unchanged |
| Graph.Insert | IRoadTrip.java:357-381 | `AdjList.add` links the node in at one place, keeping the other nodes and their order; an ascending list stays ascending, and strictly so when the new `vrtx` is new |
| PriorityQueue.Add | IRoadTrip.java:434-461 | `Queue.add` links the node in at one place, the queue gains exactly that node and its vertex, and a queue sorted by distance stays sorted |
| PriorityQueue.Remove | IRoadTrip.java:496-508 | `remove` drops exactly the node at the position, keeping the order of the rest, so sortedness and distinct vertices are kept |
| PriorityQueue.Find | IRoadTrip.java:466-469 | the walk of `decrease` stops at the first node of the vertex |
| PriorityQueue.Decrease | IRoadTrip.java:464-474 | `decrease(v, d)` replaces the node of `v` by `(v, d)` and changes nothing else: the queued vertices and every other node are kept, and the order is kept |
| PriorityQueue.DistinctAdd | IRoadTrip.java:434-461 | adding a node for a vertex not queued keeps every vertex queued once |
| PriorityQueue.DeleteMin | IRoadTrip.java:477-487 | `deleteMin` returns the head vertex and leaves the rest; on a sorted queue that vertex has the least distance, and on a distinct queue it is no longer queued |
| PriorityQueue.IsNotDone | IRoadTrip.java:490-493 | the loop goes on exactly while the queue is non-empty and its head has a finite distance; when it stops every queued vertex is at `Integer.MAX_VALUE` |
| Dijkstra.FindMinPaths | IRoadTrip.java:594-629 | the start has distance 0 and no predecessor; a distance is infinite exactly when the country is unreachable, and then the predecessor is -1; a finite distance is the weight of some walk and no walk is shorter; a predecessor has an edge accounting for the difference of the two distances and was settled earlier |
| Dijkstra.Settle | IRoadTrip.java:609-620 | the `while (queue.isNotDone())` loop keeps the Dijkstra invariant and ends when the head of the queue is unreachable |
| Dijkstra.Step | IRoadTrip.java:610-619 | one round settles the head of the queue and relaxes its edges, keeping the invariant with one country fewer queued |
| Dijkstra.RelaxEdges | IRoadTrip.java:612-619 | relaxing every edge out of the settled country keeps all labels achieved and bounded, the queue in step with the labels, and every edge out of it relaxed |
| Dijkstra.RelaxOne | IRoadTrip.java:613-619 | handling the `j`-th edge out of the settled country leaves edges `0..j` relaxed (no target farther than the settled country plus the edge weight), all labels achieved and bounded, every settled country at its shortest distance, and the queue sorted and holding exactly the unsettled countries at their labels |
| Dijkstra.HeadClosest | IRoadTrip.java:610 | the head of the queue is an unsettled country no farther than any other unsettled one and at least as far as every settled one, with a finite label that no walk from the start undercuts |
| Reach.Explore | IRoadTrip.java:541-552 | `explore(v)` only adds to `visited`, adds only countries reachable from `v`, includes `v`, and leaves no edge out of an added country pointing outside |
| Reach.ExploreEdges | IRoadTrip.java:545-551 | the loop over `v`'s list visits every neighbour from the current node on, and only countries reachable from `v` |
| Reach.NoPath | IRoadTrip.java:666-673 | `noPath(v0, v1)` is true exactly when no walk leads from `v0` to `v1` |
| Reach.WalkStaysInside | IRoadTrip.java:541-552 | a walk that starts inside the explored set never leaves it |
| Builder.NextTo | IRoadTrip.java:219-243 | one index per neighbour name, each -1 or the position of that name; on a sorted country table -1 exactly when the name is not a country |
| Builder.FindDistance | IRoadTrip.java:153-189 | the same name gives 0; on a sorted state table two listed names probe the table with their own state numbers |
| Builder.LineLookups | IRoadTrip.java:78-79 | each resolved neighbour of country `i` gets the lookup of the two country names; a neighbour that is country `i` itself gets 0, and on a sorted state table a listed neighbour gets the table probe with the numbers of both names' first rows |
| Builder.AcceptedExactly | IRoadTrip.java:78-83 | a node is added for a line exactly when some neighbour position names its country and found its distance |
| Builder.AddNeighbours | IRoadTrip.java:73-84 | the list comes out ordered by country and holds exactly the accepted nodes, and it comes out only when every name resolves and no lookup faults; a crash names a neighbour that throws, and there is none when every name resolves, no lookup faults and no neighbour repeats |
| Builder.AddOne | IRoadTrip.java:78-81 | one neighbour position either crashes for a reason it names (an unresolved name, a faulty lookup, a repeat of an earlier neighbour) or passes a name that resolves and a lookup that does not fault, leaving the list ordered and holding exactly the nodes accepted up to and including that position |
| Builder.Repeated | IRoadTrip.java:366-380 | a node already in the list for the neighbour at hand came from an earlier position naming the same country |
| Builder.Build | IRoadTrip.java:64-86 | both tables are sorted as `sort0`/`sort1` promise; on success every border line resolves with no faulty lookup, the graph has one ordered list per country holding exactly its planned nodes, and every node carries the distance looked up for its pair; a crash is explained by a neighbour, and there is none when every line is healthy |
| Builder.BuildLists | IRoadTrip.java:69-85 | the loop of `execute` succeeds only when every border line resolves with no faulty lookup, and then gives one list per country, ordered and holding exactly its planned nodes, on a well-formed graph whose nodes carry their looked-up distances; a crash is a fault of some line, and with every line healthy it does not crash |
| Builder.BuildRow | IRoadTrip.java:70-84 | a list for country `i` means its border line resolves with no faulty lookup, and the list holds exactly its planned nodes in country order; otherwise the crash is explained by country `i`'s line, which is then not healthy |
| Builder.BuiltGraph | IRoadTrip.java:64-86 | lists holding exactly the planned nodes form a well-formed graph whose nodes carry their looked-up distances |
| Builder.HasNeighbour | IRoadTrip.java:96-102 | the walk along the list finds the country exactly when some node of the list points at it |
| Builder.GetDistance | IRoadTrip.java:89-104 | an unknown name gives -1; any other answer comes from a node of the first country's list for the second; on the built graph it answers `w` exactly when that list holds the node `(c2, w)` |
| Route.Unwind | IRoadTrip.java:648-653 | following `prev` back from the target reaches the start along edges of the graph, and the walk weighs the target's distance |
| Route.LegsAlong | IRoadTrip.java:654-661 | one leg per step of the walk, from each country to the next, with the distance `Trip.Distance` gives for the pair |
| Route.LegsWeighted | IRoadTrip.java:654-661 | on the built graph each leg reports the weight of its step |
| Route.Trace | IRoadTrip.java:643-662 | for a reachable target the legs run from the start country to the target along a walk of the graph that no other walk undercuts, one leg per step |
| Route.Path | IRoadTrip.java:632-663 | an unknown name gives no route; for known names there is no route exactly when the target is unreachable; the same known country at both ends, and only that, throws; otherwise the legs chain from `c1` to `c2` along a walk that no walk between them undercuts, and on the built graph each leg carries its step's weight |

## Left out

- `doFile0`, `doFile1`, `doFile2`, `getname1`, `writef`, `main`, the constructor and `acceptUserInput`: they are file reading, console input and printing. The model takes the tables already loaded.
- Builder.NextTo: the text parsing of a border line (replacing `=` by `;`, cutting at the digits of the length) is not modelled. The function takes the neighbour names already split off. A line without neighbours (the program's `-2` marker) is an empty list of names.
- `findPath`: it builds a `Trip` from the loaded tables and returns what `Trip.path` returns, so `Route.Path` covers it.
- The text of each leg (`c0 --> c1 (d km.)`): `Route.Leg` holds its three parts. The empty-string answer is `Route.NoRoute`.
- Dijkstra.FindMinPaths: Java `int` wrap-around of `dist[u] + wght` is not modelled. The ghost bound `maxW` (with `|graph| * maxW < Integer.MAX_VALUE`) rules it out, and the data's distances are far below it.
- The final copy of `dist`/`prev` into the `minPath` matrix is not modelled. `FindMinPaths` returns the two sequences.
- Builder.AddNeighbours: the lookups of a line are taken before the insertions (`Builder.LineLookups`) rather than one per iteration. They are pure, so the order does not matter.
- The back links (`blink`) of the queue are not modelled. They mirror the forward order and carry no information of their own.
- The literal sizes (253 countries, 216 states, 41006 distance rows, 202 blocks) are not modelled. They are the lengths of the sequences passed in. `Distances.SourceLayoutSize` relates the block layout to the row count.
- Distances.DistRow and Graph.Edge: distances are `nat`, while the program holds them in `int`. The data's capital distances are non-negative, and Dijkstra's optimality needs non-negative weights. A negative table value is therefore not modelled. Nor is a table value of -1, which `execute` (IRoadTrip.java:80) could not tell apart from "not found".
- StringOrder.Less: names are `seq<char>`, compared one Unicode scalar value at a time, while `String.compareTo` compares UTF-16 code units. The two orders agree on names inside the Basic Multilingual Plane, which is all the country and state names use. Names with supplementary characters are not modelled.
