/** What the route finder guarantees. Every route it returns is a walk of the
    graph from the origin to the destination, with the returned cost. It fails
    exactly when no walk reaches the destination. When the estimate table is
    admissible, the returned cost is the least cost of any walk to the
    destination. The proof carries an invariant of the frontier and the
    best-cost table through the outer loop. */
module AStarProofs {
  import opened Graph
  import opened Heuristics
  import opened AStar
  import opened Sums

  /** Some walk from `start` ends at `dest`, visits `route` and costs `cost`. */
  ghost predicate Walks(g: Graph, start: Station, dest: Station, route: seq<Station>, cost: nat) {
    exists hops :: IsWalk(g, start, hops) && WalkEnd(start, hops) == dest && Route(start, hops) == route && Cost(hops) == cost
  }

  /** A frontier entry records a real walk from `start`. Its estimate lies
      between its cost so far and that cost plus the table's estimate; the two
      bounds differ only for the start entry, whose estimate is 0. */
  ghost predicate EntryOK(g: Graph, table: Table, start: Station, goal: Station, e: Entry) {
    Walks(g, start, e.station, e.route, e.acc)
    && e.acc <= e.estimate <= e.acc + Heuristic(table, e.station, goal)
  }

  /** Some entry of the frontier stands at `v` with cost `c`. */
  predicate Pending(f: seq<Entry>, v: Station, c: nat) {
    exists j :: 0 <= j < |f| && f[j].station == v && f[j].acc == c
  }

  /** Every neighbour of `v` is in the table at no more than `v`'s cost plus the edge. */
  predicate Relaxed(g: Graph, best: map<Station, nat>, v: Station)
    requires v in best
  {
    forall nb :: nb in Neighbors(g, v) ==> nb.station in best && best[nb.station] <= best[v] + nb.time
  }

  /** The invariant of the outer loop. The origin costs 0. Every entry is
      sound. Each recorded cost either waits in the frontier or has been
      passed on to all neighbours. A recorded cost of the destination waits
      in the frontier. */
  ghost predicate Inv(g: Graph, table: Table, start: Station, goal: Station, st: State) {
    && start in st.best && st.best[start] == 0
    && (forall j :: 0 <= j < |st.frontier| ==> EntryOK(g, table, start, goal, st.frontier[j]))
    && (forall v :: v in st.best ==> Pending(st.frontier, v, st.best[v]) || Relaxed(g, st.best, v))
    && (goal in st.best ==> Pending(st.frontier, goal, st.best[goal]))
  }

  /** What the answer promises. A found route is a walk to the destination
      with the returned cost, and with an admissible table no walk there is
      cheaper. No answer means no walk reaches the destination. */
  ghost predicate Correct(g: Graph, table: Table, start: Station, goal: Station, r: SearchResult) {
    match r
    case Found(route, cost) =>
      Walks(g, start, goal, route, cost)
      && (Admissible(g, table, goal) ==>
            forall hops :: IsWalk(g, start, hops) && WalkEnd(start, hops) == goal ==> cost <= Cost(hops))
    case Exhausted =>
      forall hops :: IsWalk(g, start, hops) ==> WalkEnd(start, hops) != goal
  }

  // ---------------------------------------------------------------------
  // The frontier under removal and pushes

  /** Removing another entry keeps a pending cost pending. */
  lemma PendingRemove(f: seq<Entry>, m: nat, v: Station, c: nat)
    requires m < |f| && Pending(f, v, c)
    requires !(f[m].station == v && f[m].acc == c)
    ensures Pending(RemoveAt(f, m), v, c)
  {
    var j :| 0 <= j < |f| && f[j].station == v && f[j].acc == c;
    var r := RemoveAt(f, m);
    if j < m {
      assert r[j] == f[j];
    } else {
      assert r[j - 1] == f[j];
    }
  }

  /** Pushing entries keeps a pending cost pending. */
  lemma PendingPrefix(f: seq<Entry>, h: seq<Entry>, v: Station, c: nat)
    requires Pending(f, v, c)
    requires |f| <= |h| && h[..|f|] == f
    ensures Pending(h, v, c)
  {
    var j :| 0 <= j < |f| && f[j].station == v && f[j].acc == c;
    assert h[j] == h[..|f|][j];
  }

  // ---------------------------------------------------------------------
  // The inner loop

  /** The inner loop only adds stations to the table and only lowers costs. */
  lemma {:induction false} RelaxLowers(table: Table, goal: Station, e: Entry, nbrs: seq<Neighbor>, st: State)
    ensures st.best.Keys <= Relax(table, goal, e, nbrs, st).best.Keys
    ensures forall v :: v in st.best ==> Relax(table, goal, e, nbrs, st).best[v] <= st.best[v]
    decreases |nbrs|
  {
    if nbrs != [] {
      RelaxLowers(table, goal, e, nbrs[1..], RelaxOne(table, goal, e, nbrs[0], st));
    }
  }

  /** The inner loop only pushes: the frontier it starts from is a prefix of the one it leaves. */
  lemma {:induction false} RelaxPushes(table: Table, goal: Station, e: Entry, nbrs: seq<Neighbor>, st: State)
    ensures |st.frontier| <= |Relax(table, goal, e, nbrs, st).frontier|
    ensures Relax(table, goal, e, nbrs, st).frontier[..|st.frontier|] == st.frontier
    decreases |nbrs|
  {
    if nbrs != [] {
      var st1 := RelaxOne(table, goal, e, nbrs[0], st);
      RelaxPushes(table, goal, e, nbrs[1..], st1);
      var after := Relax(table, goal, e, nbrs[1..], st1);
      assert after.frontier[..|st.frontier|] == after.frontier[..|st1.frontier|][..|st.frontier|];
    }
  }

  /** Every cost the inner loop records or changes is carried by a frontier entry. */
  lemma {:induction false} RelaxRecords(table: Table, goal: Station, e: Entry, nbrs: seq<Neighbor>, st: State)
    ensures var after := Relax(table, goal, e, nbrs, st);
            forall v :: v in after.best ==>
              (v in st.best && after.best[v] == st.best[v]) || Pending(after.frontier, v, after.best[v])
    decreases |nbrs|
  {
    if nbrs != [] {
      var nb := nbrs[0];
      var st1 := RelaxOne(table, goal, e, nb, st);
      RelaxRecords(table, goal, e, nbrs[1..], st1);
      RelaxPushes(table, goal, e, nbrs[1..], st1);
      var after := Relax(table, goal, e, nbrs[1..], st1);
      forall v | v in after.best && !(v in st.best && after.best[v] == st.best[v])
        ensures Pending(after.frontier, v, after.best[v])
      {
        if v in st1.best && after.best[v] == st1.best[v] {
          var k := |st.frontier|;
          assert st1.frontier[k].station == v && st1.frontier[k].acc == st1.best[v];
          PendingPrefix(st1.frontier, after.frontier, v, after.best[v]);
        }
      }
    }
  }

  /** After the inner loop each listed neighbour is in the table, at no more
      than the popped cost plus the edge. */
  lemma {:induction false} RelaxReaches(table: Table, goal: Station, e: Entry, nbrs: seq<Neighbor>, st: State)
    ensures var after := Relax(table, goal, e, nbrs, st);
            forall nb :: nb in nbrs ==> nb.station in after.best && after.best[nb.station] <= e.acc + nb.time
    decreases |nbrs|
  {
    if nbrs != [] {
      var st1 := RelaxOne(table, goal, e, nbrs[0], st);
      RelaxReaches(table, goal, e, nbrs[1..], st1);
      RelaxLowers(table, goal, e, nbrs[1..], st1);
      assert forall nb :: nb in nbrs ==> nb == nbrs[0] || nb in nbrs[1..];
    }
  }

  /** The entry pushed for neighbour `nb` of a sound entry is sound. */
  lemma PushedOK(g: Graph, table: Table, start: Station, goal: Station, e: Entry, nb: Neighbor)
    requires Walks(g, start, e.station, e.route, e.acc)
    requires Edge(g, e.station, nb)
    ensures var cost := e.acc + nb.time;
            EntryOK(g, table, start, goal, Entry(cost + Heuristic(table, nb.station, goal), cost, nb.station, e.route + [nb.station]))
  {
    var hops :| IsWalk(g, start, hops) && WalkEnd(start, hops) == e.station && Route(start, hops) == e.route && Cost(hops) == e.acc;
    ExtendWalk(g, start, hops, nb);
    assert WalkEnd(start, hops + [nb]) == nb.station;
  }

  /** Every entry the inner loop pushes for a sound entry is sound. */
  lemma {:induction false} RelaxSound(g: Graph, table: Table, start: Station, goal: Station, e: Entry, nbrs: seq<Neighbor>, st: State)
    requires Walks(g, start, e.station, e.route, e.acc)
    requires forall nb :: nb in nbrs ==> Edge(g, e.station, nb)
    ensures var after := Relax(table, goal, e, nbrs, st);
            forall j :: |st.frontier| <= j < |after.frontier| ==> EntryOK(g, table, start, goal, after.frontier[j])
    decreases |nbrs|
  {
    if nbrs != [] {
      var nb := nbrs[0];
      var st1 := RelaxOne(table, goal, e, nb, st);
      assert forall x :: x in nbrs[1..] ==> x in nbrs;
      RelaxSound(g, table, start, goal, e, nbrs[1..], st1);
      if st1 != st {
        PushedOK(g, table, start, goal, e, nb);
        RelaxPushes(table, goal, e, nbrs[1..], st1);
        var after := Relax(table, goal, e, nbrs[1..], st1);
        var k := |st.frontier|;
        assert after.frontier[k] == after.frontier[..|st1.frontier|][k];
      }
    }
  }

  // ---------------------------------------------------------------------
  // One turn of the outer loop keeps the invariant

  /** The frontier after one turn holds only sound entries. */
  lemma StepSound(g: Graph, table: Table, start: Station, goal: Station, st: State)
    requires Inv(g, table, start, goal, st) && st.frontier != []
    ensures var m := MinIndex(st.frontier);
            var e := st.frontier[m];
            var after := Relax(table, goal, e, Neighbors(g, e.station), State(RemoveAt(st.frontier, m), st.best));
            forall j :: 0 <= j < |after.frontier| ==> EntryOK(g, table, start, goal, after.frontier[j])
  {
    var f := st.frontier;
    var m := MinIndex(f);
    var e := f[m];
    var popped := State(RemoveAt(f, m), st.best);
    var after := Relax(table, goal, e, Neighbors(g, e.station), popped);
    RelaxPushes(table, goal, e, Neighbors(g, e.station), popped);
    RelaxSound(g, table, start, goal, e, Neighbors(g, e.station), popped);
    forall j | 0 <= j < |popped.frontier| ensures EntryOK(g, table, start, goal, after.frontier[j]) {
      assert after.frontier[j] == after.frontier[..|popped.frontier|][j];
      if j < m {
        assert popped.frontier[j] == f[j];
      } else {
        assert popped.frontier[j] == f[j + 1];
      }
    }
  }

  /** Each cost recorded after one turn still waits in the frontier or has been passed on. */
  lemma StepRecorded(g: Graph, table: Table, start: Station, goal: Station, st: State, v: Station)
    requires Inv(g, table, start, goal, st) && st.frontier != []
    ensures var m := MinIndex(st.frontier);
            var e := st.frontier[m];
            var after := Relax(table, goal, e, Neighbors(g, e.station), State(RemoveAt(st.frontier, m), st.best));
            v in after.best ==> Pending(after.frontier, v, after.best[v]) || Relaxed(g, after.best, v)
  {
    var f := st.frontier;
    var m := MinIndex(f);
    var e := f[m];
    var nbrs := Neighbors(g, e.station);
    var popped := State(RemoveAt(f, m), st.best);
    var after := Relax(table, goal, e, nbrs, popped);
    if v in after.best {
      RelaxRecords(table, goal, e, nbrs, popped);
      RelaxLowers(table, goal, e, nbrs, popped);
      if v in st.best && after.best[v] == st.best[v] {
        if e.station == v && e.acc == st.best[v] {
          RelaxReaches(table, goal, e, nbrs, popped);
        } else if Pending(f, v, st.best[v]) {
          PendingRemove(f, m, v, st.best[v]);
          RelaxPushes(table, goal, e, nbrs, popped);
          PendingPrefix(popped.frontier, after.frontier, v, after.best[v]);
        } else {
          assert Relaxed(g, st.best, v);
        }
      }
    }
  }

  /** A recorded cost of the destination still waits in the frontier after one turn. */
  lemma StepGoal(g: Graph, table: Table, start: Station, goal: Station, st: State)
    requires Inv(g, table, start, goal, st) && st.frontier != []
    requires st.frontier[MinIndex(st.frontier)].station != goal
    ensures var m := MinIndex(st.frontier);
            var e := st.frontier[m];
            var after := Relax(table, goal, e, Neighbors(g, e.station), State(RemoveAt(st.frontier, m), st.best));
            goal in after.best ==> Pending(after.frontier, goal, after.best[goal])
  {
    var f := st.frontier;
    var m := MinIndex(f);
    var e := f[m];
    var nbrs := Neighbors(g, e.station);
    var popped := State(RemoveAt(f, m), st.best);
    var after := Relax(table, goal, e, nbrs, popped);
    RelaxRecords(table, goal, e, nbrs, popped);
    if goal in st.best && goal in after.best && after.best[goal] == st.best[goal] {
      PendingRemove(f, m, goal, st.best[goal]);
      RelaxPushes(table, goal, e, nbrs, popped);
      PendingPrefix(popped.frontier, after.frontier, goal, after.best[goal]);
    }
  }

  /** One turn of the outer loop that does not stop keeps the invariant. */
  lemma StepInv(g: Graph, table: Table, start: Station, goal: Station, st: State)
    requires Inv(g, table, start, goal, st) && st.frontier != []
    requires st.frontier[MinIndex(st.frontier)].station != goal
    ensures var m := MinIndex(st.frontier);
            var e := st.frontier[m];
            Inv(g, table, start, goal, Relax(table, goal, e, Neighbors(g, e.station), State(RemoveAt(st.frontier, m), st.best)))
  {
    var m := MinIndex(st.frontier);
    var e := st.frontier[m];
    var popped := State(RemoveAt(st.frontier, m), st.best);
    var after := Relax(table, goal, e, Neighbors(g, e.station), popped);
    RelaxLowers(table, goal, e, Neighbors(g, e.station), popped);
    StepSound(g, table, start, goal, st);
    forall v | v in after.best ensures Pending(after.frontier, v, after.best[v]) || Relaxed(g, after.best, v) {
      StepRecorded(g, table, start, goal, st, v);
    }
    StepGoal(g, table, start, goal, st);
  }

  // ---------------------------------------------------------------------
  // Walks meet the frontier

  /** Following a walk from the origin, some station of it is pending at no
      more than the cost of the walk up to there, or the walk's `k`-th station
      is recorded at no more than that cost. */
  lemma {:induction false} Chain(g: Graph, start: Station, st: State, hops: seq<Neighbor>, k: nat)
    returns (i: nat)
    requires start in st.best && st.best[start] == 0
    requires forall v :: v in st.best ==> Pending(st.frontier, v, st.best[v]) || Relaxed(g, st.best, v)
    requires IsWalk(g, start, hops) && k <= |hops|
    ensures i <= k && At(start, hops, i) in st.best && st.best[At(start, hops, i)] <= Cost(hops[..i])
    ensures i == k || Pending(st.frontier, At(start, hops, i), st.best[At(start, hops, i)])
  {
    if k == 0 {
      assert hops[..0] == [];
      i := 0;
    } else {
      i := Chain(g, start, st, hops, k - 1);
      var v := At(start, hops, k - 1);
      if i == k - 1 && !Pending(st.frontier, v, st.best[v]) {
        assert Edge(g, v, hops[k - 1]);
        assert Relaxed(g, st.best, v);
        ChainStep(g, st.best, start, hops, k);
        i := k;
      }
    }
  }

  /** One step of `Chain`: a relaxed station passes a bound on its cost to the next station of the walk. */
  lemma ChainStep(g: Graph, best: map<Station, nat>, start: Station, hops: seq<Neighbor>, k: nat)
    requires 0 < k <= |hops|
    requires Edge(g, At(start, hops, k - 1), hops[k - 1])
    requires At(start, hops, k - 1) in best && Relaxed(g, best, At(start, hops, k - 1))
    requires best[At(start, hops, k - 1)] <= Cost(hops[..k - 1])
    ensures At(start, hops, k) in best && best[At(start, hops, k)] <= Cost(hops[..k])
  {
    assert hops[..k][..k - 1] == hops[..k - 1];
  }

  /** A walk from the origin to the destination meets the frontier: some
      entry stands on the walk at no more than the walk's cost up to there. */
  lemma WalkMeetsFrontier(g: Graph, table: Table, start: Station, goal: Station, st: State, hops: seq<Neighbor>)
    returns (i: nat, j: nat)
    requires Inv(g, table, start, goal, st)
    requires IsWalk(g, start, hops) && WalkEnd(start, hops) == goal
    ensures i <= |hops| && j < |st.frontier|
    ensures st.frontier[j].station == At(start, hops, i) && st.frontier[j].acc <= Cost(hops[..i])
  {
    i := Chain(g, start, st, hops, |hops|);
    var v := At(start, hops, i);
    assert Pending(st.frontier, v, st.best[v]);
    j :| 0 <= j < |st.frontier| && st.frontier[j].station == v && st.frontier[j].acc == st.best[v];
  }

  /** With an empty frontier, no walk from the origin reaches the destination. */
  lemma EmptyFrontierUnreachable(g: Graph, table: Table, start: Station, goal: Station, st: State, hops: seq<Neighbor>)
    requires Inv(g, table, start, goal, st)
    requires IsWalk(g, start, hops)
    ensures st.frontier == [] ==> WalkEnd(start, hops) != goal
  {
    if WalkEnd(start, hops) == goal {
      var i, j := WalkMeetsFrontier(g, table, start, goal, st, hops);
    }
  }

  /** With an admissible table, some frontier entry estimates no more than
      the cost of a given walk to the destination. */
  lemma FrontierBound(g: Graph, table: Table, start: Station, goal: Station, st: State, hops: seq<Neighbor>)
    returns (j: nat)
    requires Inv(g, table, start, goal, st) && Admissible(g, table, goal)
    requires IsWalk(g, start, hops) && WalkEnd(start, hops) == goal
    ensures j < |st.frontier| && st.frontier[j].estimate <= Cost(hops)
  {
    var i;
    i, j := WalkMeetsFrontier(g, table, start, goal, st, hops);
    WalkSuffix(g, start, hops, i);
    CostSplit(hops, i);
    assert Heuristic(table, At(start, hops, i), goal) <= Cost(hops[i..]);
  }

  // ---------------------------------------------------------------------
  // The outer loop

  /** From any state that satisfies the invariant, the loop gives a correct answer. */
  lemma RunCorrect(g: Graph, table: Table, start: Station, goal: Station, st: State)
    requires Inv(g, table, start, goal, st)
    ensures Correct(g, table, start, goal, Run(g, table, goal, st))
    decreases |NeighborStations(g) - st.best.Keys|, MapSum(st.best), |st.frontier|
  {
    if st.frontier == [] {
      forall hops | IsWalk(g, start, hops) ensures WalkEnd(start, hops) != goal {
        EmptyFrontierUnreachable(g, table, start, goal, st, hops);
      }
    } else {
      var m := MinIndex(st.frontier);
      var e := st.frontier[m];
      if e.station == goal {
        assert EntryOK(g, table, start, goal, e);
        if Admissible(g, table, goal) {
          forall hops | IsWalk(g, start, hops) && WalkEnd(start, hops) == goal ensures e.acc <= Cost(hops) {
            var j := FrontierBound(g, table, start, goal, st, hops);
            assert !EntryLess(st.frontier[j], e);
          }
        }
      } else {
        var popped := State(RemoveAt(st.frontier, m), st.best);
        var after := Relax(table, goal, e, Neighbors(g, e.station), popped);
        StepInv(g, table, start, goal, st);
        NeighborsInGraph(g, e.station);
        RelaxProgress(g, table, goal, e, Neighbors(g, e.station), popped);
        RunCorrect(g, table, start, goal, after);
      }
    }
  }

  /** The state before the loop satisfies the invariant. */
  lemma InitInv(g: Graph, table: Table, start: Station, goal: Station)
    ensures Inv(g, table, start, goal, Init(start))
  {
    var st := Init(start);
    assert IsWalk(g, start, []) && WalkEnd(start, []) == start && Route(start, []) == [start] && Cost([]) == 0;
    assert EntryOK(g, table, start, goal, st.frontier[0]);
    assert Pending(st.frontier, start, 0) by {
      assert st.frontier[0].station == start && st.frontier[0].acc == 0;
    }
  }

  /** The search's answer is correct, for every graph, table and pair of stations. */
  lemma SearchCorrect(g: Graph, table: Table, start: Station, goal: Station)
    ensures Correct(g, table, start, goal, Search(g, table, start, goal))
  {
    InitInv(g, table, start, goal);
    RunCorrect(g, table, start, goal, Init(start));
  }

  // ---------------------------------------------------------------------
  // Consequences for callers

  /** The search finds a route exactly when some walk leads from the origin
      to the destination; otherwise it answers `(None, inf)`. */
  lemma SearchFindsIffReachable(g: Graph, table: Table, start: Station, goal: Station)
    ensures Search(g, table, start, goal).Found?
        <==> exists hops :: IsWalk(g, start, hops) && WalkEnd(start, hops) == goal
  {
    SearchCorrect(g, table, start, goal);
  }

  /** A found route is non-empty, starts at the origin, ends at the
      destination, and lists each station as a neighbour of the one before.
      Its cost is the sum of the times of some walk along it. */
  lemma SearchRoute(g: Graph, table: Table, start: Station, goal: Station)
    requires Search(g, table, start, goal).Found?
    ensures var r := Search(g, table, start, goal);
            |r.route| > 0 && r.route[0] == start && r.route[|r.route| - 1] == goal
            && Linked(g, r.route) && Walks(g, start, goal, r.route, r.cost)
  {
    SearchCorrect(g, table, start, goal);
    var r := Search(g, table, start, goal);
    var hops :| IsWalk(g, start, hops) && WalkEnd(start, hops) == goal && Route(start, hops) == r.route && Cost(hops) == r.cost;
    RouteEnds(start, hops);
    WalkLinked(g, start, hops);
  }

  /** With an admissible table, the search finds a route whenever there is a
      walk, and no walk is cheaper than the route it finds. */
  lemma SearchOptimal(g: Graph, table: Table, start: Station, goal: Station, hops: seq<Neighbor>)
    requires Admissible(g, table, goal)
    requires IsWalk(g, start, hops) && WalkEnd(start, hops) == goal
    ensures Search(g, table, start, goal).Found?
    ensures Search(g, table, start, goal).cost <= Cost(hops)
  {
    SearchCorrect(g, table, start, goal);
  }

  /** A consistent table that estimates 0 at the destination gives the cheapest route. */
  lemma ConsistentOptimal(g: Graph, table: Table, start: Station, goal: Station, hops: seq<Neighbor>)
    requires Consistent(g, table, goal) && Heuristic(table, goal, goal) == 0
    requires IsWalk(g, start, hops) && WalkEnd(start, hops) == goal
    ensures Search(g, table, start, goal).Found?
    ensures Search(g, table, start, goal).cost <= Cost(hops)
  {
    ConsistentAdmissible(g, table, goal);
    SearchOptimal(g, table, start, goal, hops);
  }

  /** With no estimates at all (every estimate 0, as for Dijkstra's
      algorithm) the search gives the cheapest route. */
  lemma DijkstraOptimal(g: Graph, start: Station, goal: Station, hops: seq<Neighbor>)
    requires IsWalk(g, start, hops) && WalkEnd(start, hops) == goal
    ensures Search(g, map[], start, goal).Found?
    ensures Search(g, map[], start, goal).cost <= Cost(hops)
  {
    EmptyTableAdmissible(g, goal);
    SearchOptimal(g, map[], start, goal, hops);
  }

  /** Asking for the route from a station to itself returns that station at cost 0. */
  lemma SearchSameStation(g: Graph, table: Table, s: Station)
    ensures Search(g, table, s, s) == Found([s], 0)
  {
    assert MinIndex(Init(s).frontier) == 0;
  }

  /** From a station without a neighbour list, only that station itself is reachable. */
  lemma SearchFromUnlisted(g: Graph, table: Table, start: Station, goal: Station)
    requires start !in g && start != goal
    ensures Search(g, table, start, goal) == Exhausted
  {
    var st := Init(start);
    assert MinIndex(st.frontier) == 0;
    assert Neighbors(g, start) == [];
    RunStep(g, table, goal, st);
    assert Relax(table, goal, st.frontier[0], [], State(RemoveAt(st.frontier, 0), st.best)) == State([], st.best);
  }
}
