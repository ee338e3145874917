/** The inference engine: an A* search over the adjacency structure. It keeps
    a frontier of entries `(estimate, accumulated, station, route)` and a
    best-cost table, pops the least entry under Python's tuple order, stops
    when that entry stands at the destination, and otherwise offers each
    neighbour a longer route when it is cheaper than the best one known. A
    popped entry is always expanded, even when a cheaper route to its station
    was found after it was pushed. */
module AStar {
  import opened Sums
  import opened Graph
  import opened Order
  import opened Heuristics

  /** A frontier entry `(costo_estimado_total, costo_acumulado, estacion_actual, ruta)`. */
  datatype Entry = Entry(estimate: nat, acc: nat, station: Station, route: seq<Station>)

  /** The search state: the frontier (`frontera`) and the best-cost table (`mejor_costo`). */
  datatype State = State(frontier: seq<Entry>, best: map<Station, nat>)

  /** The answer: `(ruta, costo)`, or `Exhausted` for `(None, inf)`. */
  datatype SearchResult = Found(route: seq<Station>, cost: nat) | Exhausted

  /** Python's `<` on entry tuples: estimate, then accumulated cost, then
      station name, then route, each only when the earlier ones are equal. */
  predicate EntryLess(x: Entry, y: Entry) {
    x.estimate < y.estimate
    || (x.estimate == y.estimate
        && (x.acc < y.acc
            || (x.acc == y.acc
                && (StrLess(x.station, y.station)
                    || (x.station == y.station && ListLess(x.route, y.route))))))
  }

  /** The order on entries is a strict total order. */
  lemma EntryLessStrictTotal()
    ensures StrictTotal(EntryLess)
  {
    StrLessStrictTotal();
    ListLessStrictTotal();
  }

  /** The index of the first least entry of the frontier: the entry `heappop` returns. */
  function MinIndex(f: seq<Entry>): (m: nat)
    requires f != []
    ensures m < |f|
    ensures forall j :: 0 <= j < |f| ==> !EntryLess(f[j], f[m])
    decreases |f|
  {
    if |f| == 1 then
      EntryLessStrictTotal();
      0
    else
      var m := MinIndex(f[..|f| - 1]);
      if EntryLess(f[|f| - 1], f[m]) then
        NewMinimum(f, m);
        |f| - 1
      else
        m
  }

  /** When the last entry is below the least of the others, it is the least of all. */
  lemma NewMinimum(f: seq<Entry>, m: nat)
    requires m < |f| - 1
    requires forall j :: 0 <= j < |f| - 1 ==> !EntryLess(f[j], f[m])
    requires EntryLess(f[|f| - 1], f[m])
    ensures forall j :: 0 <= j < |f| ==> !EntryLess(f[j], f[|f| - 1])
  {
    EntryLessStrictTotal();
  }

  /** Any least entry of the frontier equals the one `MinIndex` picks, so the
      model pops the same value as a binary heap would. */
  lemma MinIndexUnique(f: seq<Entry>, j: nat)
    requires j < |f|
    requires forall k :: 0 <= k < |f| ==> !EntryLess(f[k], f[j])
    ensures f[j] == f[MinIndex(f)]
  {
    EntryLessStrictTotal();
  }

  /** The frontier without its entry at index `m`. */
  function RemoveAt(f: seq<Entry>, m: nat): seq<Entry>
    requires m < |f|
  {
    f[..m] + f[m + 1..]
  }

  /** The first entry of every search: estimate 0, cost 0, the route `[start]`. */
  function StartEntry(start: Station): Entry {
    Entry(0, 0, start, [start])
  }

  /** The state before the loop: only the start entry, and `{start: 0}`. */
  function Init(start: Station): State {
    State([StartEntry(start)], map[start := 0])
  }

  /** One turn of the inner loop: neighbour `nb` of the popped entry `e`. The
      longer route is pushed, and its cost recorded, only when the station is
      new or the cost beats the one recorded. */
  function RelaxOne(table: Table, goal: Station, e: Entry, nb: Neighbor, st: State): State {
    var cost := e.acc + nb.time;
    if nb.station !in st.best || cost < st.best[nb.station] then
      var pushed := Entry(cost + Heuristic(table, nb.station, goal), cost, nb.station, e.route + [nb.station]);
      State(st.frontier + [pushed], st.best[nb.station := cost])
    else
      st
  }

  /** The inner loop over the neighbour list `nbrs`, in order. */
  function Relax(table: Table, goal: Station, e: Entry, nbrs: seq<Neighbor>, st: State): State
    decreases |nbrs|
  {
    if nbrs == [] then st
    else Relax(table, goal, e, nbrs[1..], RelaxOne(table, goal, e, nbrs[0], st))
  }

  /** The inner loop from position `i` is one turn followed by the loop from `i + 1`. */
  lemma RelaxStep(table: Table, goal: Station, e: Entry, nbrs: seq<Neighbor>, i: nat, st: State)
    requires i < |nbrs|
    ensures Relax(table, goal, e, nbrs[i..], st) == Relax(table, goal, e, nbrs[i + 1..], RelaxOne(table, goal, e, nbrs[i], st))
  {
    assert nbrs[i..][1..] == nbrs[i + 1..];
  }

  /** Every station that appears in some neighbour list: the only stations the
      search can add to its best-cost table. */
  function NeighborStations(g: Graph): set<Station> {
    set u, nb | u in g && nb in g[u] :: nb.station
  }

  /** The search goes from a state with a smaller best-cost table to one with
      more stations, or the same stations and a smaller sum of costs. */
  ghost predicate Progress(nodes: set<Station>, before: map<Station, nat>, after: map<Station, nat>) {
    |nodes - after.Keys| < |nodes - before.Keys|
    || (|nodes - after.Keys| == |nodes - before.Keys| && MapSum(after) < MapSum(before))
  }

  /** The neighbours of any station are among `NeighborStations(g)`. */
  lemma NeighborsInGraph(g: Graph, s: Station)
    ensures forall nb :: nb in Neighbors(g, s) ==> nb.station in NeighborStations(g)
  {
    forall nb | nb in Neighbors(g, s) ensures nb.station in NeighborStations(g) {
      assert s in g && nb in g[s];
    }
  }

  /** The inner loop either pushes nothing, leaving the state as it was, or
      makes progress on the best-cost table. This bounds the outer loop. */
  lemma {:induction false} RelaxProgress(g: Graph, table: Table, goal: Station, e: Entry, nbrs: seq<Neighbor>, st: State)
    requires forall nb :: nb in nbrs ==> nb.station in NeighborStations(g)
    ensures Relax(table, goal, e, nbrs, st) == st
         || Progress(NeighborStations(g), st.best, Relax(table, goal, e, nbrs, st).best)
    decreases |nbrs|
  {
    if nbrs != [] {
      var st1 := RelaxOne(table, goal, e, nbrs[0], st);
      assert forall x :: x in nbrs[1..] ==> x in nbrs;
      RelaxProgress(g, table, goal, e, nbrs[1..], st1);
      RelaxOneProgress(NeighborStations(g), table, goal, e, nbrs[0], st);
    }
  }

  /** One push makes progress: it adds a station, or lowers one recorded cost. */
  lemma RelaxOneProgress(nodes: set<Station>, table: Table, goal: Station, e: Entry, nb: Neighbor, st: State)
    requires nb.station in nodes
    ensures RelaxOne(table, goal, e, nb, st) == st || Progress(nodes, st.best, RelaxOne(table, goal, e, nb, st).best)
  {
    var cost := e.acc + nb.time;
    if nb.station !in st.best {
      assert nodes - st.best[nb.station := cost].Keys == (nodes - st.best.Keys) - {nb.station};
    } else if cost < st.best[nb.station] {
      assert st.best[nb.station := cost].Keys == st.best.Keys;
      MapSumUpdate(st.best, nb.station, cost);
    }
  }

  /** The outer loop `while frontera`, from state `st` to the answer. */
  function Run(g: Graph, table: Table, goal: Station, st: State): SearchResult
    decreases |NeighborStations(g) - st.best.Keys|, MapSum(st.best), |st.frontier|
  {
    if st.frontier == [] then Exhausted
    else
      var m := MinIndex(st.frontier);
      var e := st.frontier[m];
      if e.station == goal then Found(e.route, e.acc)
      else
        var popped := State(RemoveAt(st.frontier, m), st.best);
        NeighborsInGraph(g, e.station);
        RelaxProgress(g, table, goal, e, Neighbors(g, e.station), popped);
        Run(g, table, goal, Relax(table, goal, e, Neighbors(g, e.station), popped))
  }

  /** One turn of the outer loop, when the popped entry is not at the destination. */
  lemma RunStep(g: Graph, table: Table, goal: Station, st: State)
    requires st.frontier != []
    requires st.frontier[MinIndex(st.frontier)].station != goal
    ensures var m := MinIndex(st.frontier);
            var e := st.frontier[m];
            Run(g, table, goal, st)
            == Run(g, table, goal, Relax(table, goal, e, Neighbors(g, e.station), State(RemoveAt(st.frontier, m), st.best)))
  {
  }

  /** The answer of the search from `start` to `goal`. */
  function Search(g: Graph, table: Table, start: Station, goal: Station): SearchResult {
    Run(g, table, goal, Init(start))
  }

  /** The inner loop `for vecino, tiempo in grafo[estacion_actual]`: offers
      each neighbour of the popped entry `e`, in list order, a longer route. */
  method Expand(table: Table, goal: Station, e: Entry, nbrs: seq<Neighbor>, frontier0: seq<Entry>, best0: map<Station, nat>)
    returns (frontier: seq<Entry>, best: map<Station, nat>)
    ensures State(frontier, best) == Relax(table, goal, e, nbrs, State(frontier0, best0))
  {
    frontier, best := frontier0, best0;
    for i := 0 to |nbrs|
      invariant Relax(table, goal, e, nbrs[i..], State(frontier, best)) == Relax(table, goal, e, nbrs, State(frontier0, best0))
    {
      RelaxStep(table, goal, e, nbrs, i, State(frontier, best));
      var nb := nbrs[i];
      var cost: nat := e.acc + nb.time;
      if nb.station !in best || cost < best[nb.station] {
        best := best[nb.station := cost];
        var estimate: nat := cost + Heuristic(table, nb.station, goal);
        frontier := frontier + [Entry(estimate, cost, nb.station, e.route + [nb.station])];
      }
    }
  }

  /** `mejor_ruta_a_estrella(grafo, inicio, destino)`. */
  method BestRoute(g: Graph, table: Table, start: Station, goal: Station) returns (result: SearchResult)
    ensures result == Search(g, table, start, goal)
  {
    var frontier: seq<Entry> := [Entry(0, 0, start, [start])];
    var best: map<Station, nat> := map[start := 0];
    while frontier != []
      invariant Run(g, table, goal, State(frontier, best)) == Search(g, table, start, goal)
      decreases |NeighborStations(g) - best.Keys|, MapSum(best), |frontier|
    {
      ghost var current := State(frontier, best);
      var m := MinIndex(frontier);
      var e := frontier[m];
      frontier := RemoveAt(frontier, m);
      if e.station == goal {
        return Found(e.route, e.acc);
      }
      RunStep(g, table, goal, current);
      var nbrs := Neighbors(g, e.station);
      ghost var popped := State(frontier, best);
      frontier, best := Expand(table, goal, e, nbrs, frontier, best);
      NeighborsInGraph(g, e.station);
      RelaxProgress(g, table, goal, e, nbrs, popped);
    }
    return Exhausted;
  }
}
