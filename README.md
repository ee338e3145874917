# A verified model of a rule-based route finder

The program models a small transit network as a knowledge base of facts
`(origen, destino, tiempo)`: two stations and the minutes between them. It
builds a two-way adjacency structure from the facts (`construir_grafo`). It
looks up estimated minutes to the destination in a fixed table
(`heuristica`). It finds a route with an A* search (`mejor_ruta_a_estrella`).
The search keeps a priority queue `frontera` of tuples
`(estimate, accumulated, station, route)` and a best-cost dictionary
`mejor_costo`. It pops the least tuple, stops when that tuple stands at the
destination, and otherwise offers each neighbour the longer route when it
beats the best cost known. The program ships one knowledge base
(`conexiones`) and one table (`heuristica_estimada`).

The Dafny model has these modules:

- `Graph` (`graph.dfy`): facts, the adjacency structure and walks.
  - `BuildGraph` is the loop of `construir_grafo` over a `map` that it
    reassigns. It is proved equal to `GraphOf`, a function that states the
    structure per station.
  - Lemmas prove the key set, the two-entries-per-fact count and symmetry.
  - `IsWalk`, `Cost` and `Route` define walks through the structure.
- `Heuristics` (`heuristic.dfy`): the table lookup, and what it means for an
  estimate table to be admissible or consistent.
- `Order` (`order.dfy`): Python's `<` on strings and on lists of strings.
  Both are proved to be strict total orders.
- `AStar` (`astar.dfy`): the search.
  - The frontier is a sequence of entries. A push appends. A pop removes the
    first least entry under Python's tuple order.
  - `Run` is a recursive function that specifies the outer loop. Its
    termination is proved from the best-cost table: each turn either adds a
    station or lowers the sum of recorded costs, or else it only shrinks the
    frontier.
  - `BestRoute` is the method with the `while` loop. `Expand` holds its inner
    `for` loop. Both are proved against `Run` and `Relax`.
- `AStarProofs` (`astar_proofs.dfy`): an invariant of the frontier and the
  best-cost table, kept by every turn. It proves these consequences:
  - every returned route is a walk with the returned cost;
  - the search fails exactly when the destination is unreachable;
  - with an admissible table, no walk is cheaper than the returned route;
    this covers the empty table of the Dijkstra case and any consistent
    table that estimates 0 at the destination.
- `Query` (`query.dfy`): the program's check that both stations are keys of
  the structure before it searches.
- `Fixture` (`fixture.dfy`): the shipped knowledge base and table. It
  evaluates the structure and the search from `Portal_A` to `Estacion_6`
  turn by turn. It also proves that the shipped table overestimates, so the
  optimality of that answer is shown by a second evaluation with no
  estimates.
- `Sums` (`sums.dfy`): sums over map values, used by the termination measure
  and the entry count.

## Model

| member | source | states |
|---|---|---|
| Graph.BuildGraph | busqueda_sistemas_basados_en_reglas.py:25-35 | The structure built by the loop has as keys exactly the stations named as origin or destination. Each list holds the entries appended for the facts in fact order. The structure equals `GraphOf(facts)`. |
| Graph.AppendBoth | busqueda_sistemas_basados_en_reglas.py:33-34 | The two appends of one fact extend the origin's list by `(destino, tiempo)` and then the destination's list by `(origen, tiempo)`, and change no other list. |
| Graph.InsertFact | busqueda_sistemas_basados_en_reglas.py:27-34 | One loop turn turns the structure of a prefix of the facts into the structure of the prefix extended by one fact. |
| Graph.GraphOfSnoc | busqueda_sistemas_basados_en_reglas.py:27-34 | One more fact adds its two stations to the key set and appends its contribution to each list. |
| Graph.AdjacentNotNamed | busqueda_sistemas_basados_en_reglas.py:28-31 | A station that no fact names gets no entries. |
| Graph.GraphOfEntryCount | busqueda_sistemas_basados_en_reglas.py:26-35 | The lists together hold exactly two entries per fact: each fact lengthens its origin's list and its destination's list by one. |
| Graph.AdjacentHasFact | busqueda_sistemas_basados_en_reglas.py:27-34 | For every fact, the origin's list contains `(destino, tiempo)` and the destination's list contains `(origen, tiempo)`. |
| Graph.AdjacentFromFact | busqueda_sistemas_basados_en_reglas.py:33-34 | Every list entry comes from some fact that names the station at one end and the entry's station at the other, with the fact's time. |
| Graph.GraphOfSymmetric | busqueda_sistemas_basados_en_reglas.py:32-34 | Every edge of the built structure has its reverse, with the same time. |
| Graph.RouteEnds | busqueda_sistemas_basados_en_reglas.py:105 | A route built hop by hop has one station more than the walk has hops, starts at the walk's start and ends at its end. |
| Graph.RouteAt | busqueda_sistemas_basados_en_reglas.py:105 | The `i`-th station of a route is where the walk stands after `i` hops. |
| Graph.WalkLinked | busqueda_sistemas_basados_en_reglas.py:97-105 | Each station of a walk's route is listed as a neighbour of the station before it. |
| Graph.ExtendWalk | busqueda_sistemas_basados_en_reglas.py:98-105 | Following one more listed neighbour from the end of a walk gives a walk whose route gains that station and whose cost gains that time. |
| Graph.WalkSuffix | busqueda_sistemas_basados_en_reglas.py:97-105 | The rest of a walk after `j` hops is a walk from where it stands to the same end. |
| Graph.CostSplit | busqueda_sistemas_basados_en_reglas.py:98 | The cost of a walk is the cost of its first `j` hops plus the cost of the rest. |
| Heuristics.HeuristicLookup | busqueda_sistemas_basados_en_reglas.py:55-61 | The estimate is the table value when the station is a key and 0 otherwise, whatever the destination. |
| Heuristics.ConsistentBound | busqueda_sistemas_basados_en_reglas.py:55-61 | Along any walk, a consistent estimate falls by at most the walk's cost. |
| Heuristics.ConsistentAdmissible | busqueda_sistemas_basados_en_reglas.py:55-61 | A consistent table that estimates 0 at the destination never overestimates the cost of a walk to it. |
| Heuristics.EmptyTableAdmissible | busqueda_sistemas_basados_en_reglas.py:59 | With every estimate 0 (the Dijkstra case) the table never overestimates. |
| Order.LexIrreflexive | busqueda_sistemas_basados_en_reglas.py:90 | No string or list is below itself under Python's lexicographic `<`. |
| Order.LexTransitive | busqueda_sistemas_basados_en_reglas.py:90 | Python's lexicographic `<` is transitive. |
| Order.LexTotal | busqueda_sistemas_basados_en_reglas.py:90 | Of two different strings or lists, one is below the other. |
| Order.StrLessStrictTotal | busqueda_sistemas_basados_en_reglas.py:90 | `<` on station names is a strict total order. |
| Order.ListLessStrictTotal | busqueda_sistemas_basados_en_reglas.py:90 | `<` on routes is a strict total order. |
| AStar.EntryLessStrictTotal | busqueda_sistemas_basados_en_reglas.py:82-90 | The tuple order on frontier entries is a strict total order. |
| AStar.MinIndex | busqueda_sistemas_basados_en_reglas.py:90 | The popped index holds an entry that no other frontier entry is below. |
| AStar.NewMinimum | busqueda_sistemas_basados_en_reglas.py:90 | An entry below the least of the others is the least of all. |
| AStar.MinIndexUnique | busqueda_sistemas_basados_en_reglas.py:90 | Every least entry equals the popped one, so the model pops the same value as `heappop`. |
| AStar.RelaxStep | busqueda_sistemas_basados_en_reglas.py:97-106 | The inner loop from position `i` is one neighbour's turn followed by the loop from `i + 1`. |
| AStar.NeighborsInGraph | busqueda_sistemas_basados_en_reglas.py:97 | Every neighbour the search can visit is a listed neighbour of some station. |
| AStar.RelaxOneProgress | busqueda_sistemas_basados_en_reglas.py:101-106 | One neighbour's turn changes nothing, or records a new station, or lowers one recorded cost. |
| AStar.RelaxProgress | busqueda_sistemas_basados_en_reglas.py:97-106 | The inner loop leaves the state unchanged, or adds a station to `mejor_costo`, or lowers the sum of its costs. This bounds the outer loop. |
| AStar.RunStep | busqueda_sistemas_basados_en_reglas.py:89-106 | A turn whose popped entry is not at the destination continues from the state its inner loop leaves. |
| AStar.Expand | busqueda_sistemas_basados_en_reglas.py:97-106 | The inner `for` loop over the neighbour list leaves the frontier and best-cost table that `Relax` specifies. |
| AStar.BestRoute | busqueda_sistemas_basados_en_reglas.py:76-109 | The `while` loop returns what `Search` specifies. The correctness lemmas below are about that answer. |
| AStarProofs.PendingRemove | busqueda_sistemas_basados_en_reglas.py:90 | Popping one entry keeps every other waiting `(station, cost)` pair in the frontier. |
| AStarProofs.PendingPrefix | busqueda_sistemas_basados_en_reglas.py:106 | Pushing keeps every waiting `(station, cost)` pair in the frontier. |
| AStarProofs.RelaxLowers | busqueda_sistemas_basados_en_reglas.py:101-102 | The inner loop only adds keys to `mejor_costo` and only lowers its values. |
| AStarProofs.RelaxPushes | busqueda_sistemas_basados_en_reglas.py:106 | The inner loop only pushes: the frontier before it is a prefix of the frontier after it. |
| AStarProofs.RelaxRecords | busqueda_sistemas_basados_en_reglas.py:101-106 | Every cost the inner loop adds or changes waits in the frontier afterwards: some frontier entry stands at that station with that cost. |
| AStarProofs.RelaxReaches | busqueda_sistemas_basados_en_reglas.py:97-102 | After the inner loop each listed neighbour is recorded at no more than the popped cost plus the edge time. |
| AStarProofs.PushedOK | busqueda_sistemas_basados_en_reglas.py:98-106 | The pushed entry's route and cost extend a real walk by one edge. Its estimate is its cost plus the station's estimate. |
| AStarProofs.RelaxSound | busqueda_sistemas_basados_en_reglas.py:97-106 | Every entry pushed by the inner loop records a real walk from the origin with its cost. |
| AStarProofs.StepSound | busqueda_sistemas_basados_en_reglas.py:89-106 | After one turn every frontier entry still records a real walk from the origin, with its estimate between its cost and its cost plus the station's estimate. |
| AStarProofs.StepRecorded | busqueda_sistemas_basados_en_reglas.py:89-106 | After one turn, each recorded cost either waits in the frontier or has been passed on to every neighbour. |
| AStarProofs.StepGoal | busqueda_sistemas_basados_en_reglas.py:89-106 | After a turn that does not stop, a recorded cost of the destination still waits in the frontier. |
| AStarProofs.StepInv | busqueda_sistemas_basados_en_reglas.py:89-106 | A turn that does not stop keeps the loop invariant. |
| AStarProofs.InitInv | busqueda_sistemas_basados_en_reglas.py:83-87 | The start entry `(0, 0, inicio, [inicio])` with `{inicio: 0}` satisfies the invariant. |
| AStarProofs.Chain | busqueda_sistemas_basados_en_reglas.py:89-106 | Along any walk from the origin, some station waits in the frontier at no more than the walk's cost to it, or the walk's end is recorded at no more than the walk's cost. |
| AStarProofs.WalkMeetsFrontier | busqueda_sistemas_basados_en_reglas.py:89-106 | Every walk from the origin to the destination passes a station where a frontier entry waits, at no more than the walk's cost so far. |
| AStarProofs.EmptyFrontierUnreachable | busqueda_sistemas_basados_en_reglas.py:89-109 | When the frontier is empty, no walk from the origin reaches the destination. |
| AStarProofs.FrontierBound | busqueda_sistemas_basados_en_reglas.py:104 | With an admissible table, some frontier entry's estimate is at most the cost of any given walk to the destination. |
| AStarProofs.RunCorrect | busqueda_sistemas_basados_en_reglas.py:89-109 | From any state that satisfies the invariant, the loop's answer is correct: a found route is a walk with its cost and, with an admissible table, the cheapest; `(None, inf)` means no walk exists. |
| AStarProofs.SearchCorrect | busqueda_sistemas_basados_en_reglas.py:76-109 | The same for the whole search, on every graph, table and pair of stations. |
| AStarProofs.SearchFindsIffReachable | busqueda_sistemas_basados_en_reglas.py:89-109 | The search returns a route if and only if some walk leads from the origin to the destination. |
| AStarProofs.SearchRoute | busqueda_sistemas_basados_en_reglas.py:84-105 | A returned route is non-empty, starts at `inicio` and ends at `destino`. Each station in it is a listed neighbour of the one before. The returned cost is the cost of a walk along it. |
| AStarProofs.SearchOptimal | busqueda_sistemas_basados_en_reglas.py:76-80 | With an admissible table, whenever a walk exists the search returns a route that costs no more than that walk. |
| AStarProofs.ConsistentOptimal | busqueda_sistemas_basados_en_reglas.py:76-80 | The same for a consistent table that estimates 0 at the destination. |
| AStarProofs.DijkstraOptimal | busqueda_sistemas_basados_en_reglas.py:59 | With the empty table (every estimate 0) the search returns a cheapest route whenever one exists. |
| AStarProofs.SearchSameStation | busqueda_sistemas_basados_en_reglas.py:84-94 | A query from a station to itself returns `([inicio], 0)`. |
| AStarProofs.SearchFromUnlisted | busqueda_sistemas_basados_en_reglas.py:97 | From a station with no list (`grafo.get(actual, [])`) to another station, the answer is `(None, inf)`. |
| Query.ConsultCorrect | busqueda_sistemas_basados_en_reglas.py:124-129 | An unknown station is reported exactly when one of the two stations is not a key. "No route" is reported exactly when both are keys and no walk joins them. A reported route is a walk between them at the reported cost. |
| Fixture.FixtureStations | busqueda_sistemas_basados_en_reglas.py:14-22 | The shipped facts name exactly the seven stations. |
| Fixture.FixtureGraph | busqueda_sistemas_basados_en_reglas.py:14-37 | `construir_grafo(conexiones)` is the structure written out in `Grafo`, with each list in append order. |
| Fixture.FixtureQuery | busqueda_sistemas_basados_en_reglas.py:14-106 | With the shipped facts and table, the search from `Portal_A` to `Estacion_6` returns `[Portal_A, Estacion_1, Estacion_2, Estacion_5, Estacion_6]` at 19 minutes. |
| Fixture.FixtureDijkstra | busqueda_sistemas_basados_en_reglas.py:59 | With no estimates, the same query returns the same route at the same cost. |
| Fixture.FixtureQueryOptimal | busqueda_sistemas_basados_en_reglas.py:76-80 | No walk from `Portal_A` to `Estacion_6` in the shipped structure takes less than 19 minutes. |
| Fixture.FixtureTableOverestimates | busqueda_sistemas_basados_en_reglas.py:45-53 | The shipped table is not admissible for `Estacion_6`: it estimates 10 at `Estacion_3`, which reaches `Estacion_6` in 9 minutes. |

## Left out

- The program's entry point (`busqueda_sistemas_basados_en_reglas.py:115-133`) reads two names from the console and prints the answer. That I/O is not modelled. Its membership check on line 124 is modelled as `Query.Consult`.
- `heapq` is not modelled as a binary heap. The frontier is a sequence, and a pop takes the first least entry under the tuple order. `MinIndexUnique` shows that this is the value `heappop` returns. The model keeps the remaining entries in push order, while a heap would reorder them internally. Only their contents affect later pops.
- `float("inf")` is the constructor `Exhausted`. `None` paired with it is not modelled separately.
- Edge times and table estimates are `nat`. The program would accept negative or fractional times. Its own data are non-negative integers, and with negative times neither optimality nor termination holds.
- `heuristica` reads the global `heuristica_estimada`. In the model the table is a parameter of the search, and `Fixture.EstimateTable` holds the shipped values.
- There is no stale-entry skip: the search expands every popped entry, including one whose station has since been recorded at a lower cost (lines 89-106). The model does the same, and the optimality proof does not need a skip.
- Ties are not broken by push order. On equal estimates the lower accumulated cost wins, then the smaller station name, then the smaller route, because `heapq` compares whole tuples (lines 84, 90, 106). The model uses the same order.
- `arbol_decision_rutas.py` and `clustering_rutas_sitp.py` are not part of this model. They only call pandas and scikit-learn on toy tables.
