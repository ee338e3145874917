/** The knowledge base that ships with the program: seven two-way connections
    between a portal and six stations, and the table of estimated minutes to
    `Estacion_6`. The lemmas here evaluate the structure built from it and
    the search from `Portal_A` to `Estacion_6`, step by step. */
module Fixture {
  import opened Graph
  import opened Heuristics
  import opened AStar
  import opened AStarProofs

  const PortalA: Station := "Portal_A"
  const Estacion1: Station := "Estacion_1"
  const Estacion2: Station := "Estacion_2"
  const Estacion3: Station := "Estacion_3"
  const Estacion4: Station := "Estacion_4"
  const Estacion5: Station := "Estacion_5"
  const Estacion6: Station := "Estacion_6"

  /** The facts `conexiones`, in their order. */
  const Connections: seq<Fact> := [
    Fact("Portal_A", "Estacion_1", 5),
    Fact("Estacion_1", "Estacion_2", 4),
    Fact("Estacion_2", "Estacion_3", 6),
    Fact("Estacion_3", "Estacion_4", 5),
    Fact("Estacion_2", "Estacion_5", 7),
    Fact("Estacion_5", "Estacion_6", 3),
    Fact("Estacion_4", "Estacion_6", 4)
  ]

  /** The table `heuristica_estimada`. */
  const EstimateTable: Table := map[
    "Portal_A" := 20, "Estacion_1" := 18, "Estacion_2" := 14, "Estacion_3" := 10,
    "Estacion_4" := 4, "Estacion_5" := 8, "Estacion_6" := 0
  ]

  /** The adjacency structure `grafo`, written out: each list in the order
      its entries are appended. */
  const Grafo: Graph := map[
    "Portal_A" := [Neighbor("Estacion_1", 5)],
    "Estacion_1" := [Neighbor("Portal_A", 5), Neighbor("Estacion_2", 4)],
    "Estacion_2" := [Neighbor("Estacion_1", 4), Neighbor("Estacion_3", 6), Neighbor("Estacion_5", 7)],
    "Estacion_3" := [Neighbor("Estacion_2", 6), Neighbor("Estacion_4", 5)],
    "Estacion_4" := [Neighbor("Estacion_3", 5), Neighbor("Estacion_6", 4)],
    "Estacion_5" := [Neighbor("Estacion_2", 7), Neighbor("Estacion_6", 3)],
    "Estacion_6" := [Neighbor("Estacion_5", 3), Neighbor("Estacion_4", 4)]
  ]

  // ---------------------------------------------------------------------
  // The structure built from the facts

  /** The list of `s` grows fact by fact. */
  lemma AdjacentSteps(s: Station)
    ensures Adjacent(Connections[..0], s) == []
    ensures Adjacent(Connections[..1], s) == Adjacent(Connections[..0], s) + Contribution(Connections[0], s)
    ensures Adjacent(Connections[..2], s) == Adjacent(Connections[..1], s) + Contribution(Connections[1], s)
    ensures Adjacent(Connections[..3], s) == Adjacent(Connections[..2], s) + Contribution(Connections[2], s)
    ensures Adjacent(Connections[..4], s) == Adjacent(Connections[..3], s) + Contribution(Connections[3], s)
    ensures Adjacent(Connections[..5], s) == Adjacent(Connections[..4], s) + Contribution(Connections[4], s)
    ensures Adjacent(Connections[..6], s) == Adjacent(Connections[..5], s) + Contribution(Connections[5], s)
    ensures Adjacent(Connections[..7], s) == Adjacent(Connections[..6], s) + Contribution(Connections[6], s)
    ensures Connections[..7] == Connections
  {
    assert Connections[..0] == [];
    AdjacentPrefixStep(Connections, 0, s);
    AdjacentPrefixStep(Connections, 1, s);
    AdjacentPrefixStep(Connections, 2, s);
    AdjacentPrefixStep(Connections, 3, s);
    AdjacentPrefixStep(Connections, 4, s);
    AdjacentPrefixStep(Connections, 5, s);
    AdjacentPrefixStep(Connections, 6, s);
  }

  // Each station's list, evaluated.

  lemma AdjacentPortalA()
    ensures Adjacent(Connections, PortalA) == Grafo[PortalA]
  {
    AdjacentSteps(PortalA);
  }

  lemma AdjacentEstacion1()
    ensures Adjacent(Connections, Estacion1) == Grafo[Estacion1]
  {
    AdjacentSteps(Estacion1);
  }

  lemma AdjacentEstacion2()
    ensures Adjacent(Connections, Estacion2) == Grafo[Estacion2]
  {
    AdjacentSteps(Estacion2);
  }

  lemma AdjacentEstacion3()
    ensures Adjacent(Connections, Estacion3) == Grafo[Estacion3]
  {
    AdjacentSteps(Estacion3);
  }

  lemma AdjacentEstacion4()
    ensures Adjacent(Connections, Estacion4) == Grafo[Estacion4]
  {
    AdjacentSteps(Estacion4);
  }

  lemma AdjacentEstacion5()
    ensures Adjacent(Connections, Estacion5) == Grafo[Estacion5]
  {
    AdjacentSteps(Estacion5);
  }

  lemma AdjacentEstacion6()
    ensures Adjacent(Connections, Estacion6) == Grafo[Estacion6]
  {
    AdjacentSteps(Estacion6);
  }

  /** The facts name exactly the seven stations of `Grafo`. */
  lemma FixtureStations()
    ensures Stations(Connections) == Grafo.Keys
  {
    var c := Connections;
    assert forall f :: f in c ==> f.origin in Grafo.Keys && f.dest in Grafo.Keys;
    assert PortalA == c[0].origin && Estacion1 == c[0].dest && Estacion2 == c[1].dest;
    assert Estacion3 == c[2].dest && Estacion4 == c[3].dest && Estacion5 == c[4].dest && Estacion6 == c[5].dest;
  }

  /** A key of `Grafo` is one of the seven stations. */
  lemma GrafoKeys(s: Station)
    requires s in Grafo
    ensures s == PortalA || s == Estacion1 || s == Estacion2 || s == Estacion3
         || s == Estacion4 || s == Estacion5 || s == Estacion6
  {
  }

  /** `construir_grafo(conexiones)` is the structure written out above. */
  lemma FixtureGraph()
    ensures GraphOf(Connections) == Grafo
  {
    FixtureStations();
    AdjacentPortalA();
    AdjacentEstacion1();
    AdjacentEstacion2();
    AdjacentEstacion3();
    AdjacentEstacion4();
    AdjacentEstacion5();
    AdjacentEstacion6();
    var g := GraphOf(Connections);
    forall s | s in Grafo ensures g[s] == Grafo[s] {
      GrafoKeys(s);
    }
  }

  // ---------------------------------------------------------------------
  // Evaluating the search

  /** One turn of the outer loop, with its pieces computed beforehand. */
  lemma RunStepAt(g: Graph, table: Table, goal: Station, st: State, m: nat, nbrs: seq<Neighbor>, next: State)
    requires st.frontier != [] && MinIndex(st.frontier) == m
    requires st.frontier[m].station != goal
    requires Neighbors(g, st.frontier[m].station) == nbrs
    requires Relax(table, goal, st.frontier[m], nbrs, State(RemoveAt(st.frontier, m), st.best)) == next
    ensures Run(g, table, goal, st) == Run(g, table, goal, next)
  {
    RunStep(g, table, goal, st);
  }

  /** The route the search returns. */
  function BestPath(): seq<Station> {
    [PortalA, Estacion1, Estacion2, Estacion5, Estacion6]
  }

  // The states of the search with `EstimateTable`, before each pop.

  function A0(): State { Init(PortalA) }
  function A1(): State {
    State([Entry(23, 5, Estacion1, [PortalA, Estacion1])], map[PortalA := 0, Estacion1 := 5])
  }
  function A2(): State {
    State([Entry(23, 9, Estacion2, [PortalA, Estacion1, Estacion2])],
          map[PortalA := 0, Estacion1 := 5, Estacion2 := 9])
  }
  function A3(): State {
    State([Entry(25, 15, Estacion3, [PortalA, Estacion1, Estacion2, Estacion3]),
           Entry(24, 16, Estacion5, [PortalA, Estacion1, Estacion2, Estacion5])],
          map[PortalA := 0, Estacion1 := 5, Estacion2 := 9, Estacion3 := 15, Estacion5 := 16])
  }
  function A4(): State {
    State([Entry(25, 15, Estacion3, [PortalA, Estacion1, Estacion2, Estacion3]),
           Entry(19, 19, Estacion6, BestPath())],
          map[PortalA := 0, Estacion1 := 5, Estacion2 := 9, Estacion3 := 15, Estacion5 := 16, Estacion6 := 19])
  }

  // Each turn of that search: the inner loop's result, then the outer step.

  lemma RelaxA0()
    ensures Relax(EstimateTable, Estacion6, A0().frontier[0], Grafo[PortalA], State(RemoveAt(A0().frontier, 0), A0().best)) == A1()
  {
    var e := A0().frontier[0];
    var popped := State(RemoveAt(A0().frontier, 0), A0().best);
    assert popped == State([], map[PortalA := 0]);
    assert Estacion1 !in popped.best;
    assert Heuristic(EstimateTable, Estacion1, Estacion6) == 18;
    assert [PortalA] + [Estacion1] == [PortalA, Estacion1];
    var st1 := RelaxOne(EstimateTable, Estacion6, e, Neighbor(Estacion1, 5), popped);
    assert st1 == A1();
  }

  lemma StepA0()
    ensures Run(Grafo, EstimateTable, Estacion6, A0()) == Run(Grafo, EstimateTable, Estacion6, A1())
  {
    assert MinIndex(A0().frontier) == 0;
    RelaxA0();
    RunStepAt(Grafo, EstimateTable, Estacion6, A0(), 0, Grafo[PortalA], A1());
  }

  lemma RelaxA1()
    ensures Relax(EstimateTable, Estacion6, A1().frontier[0], Grafo[Estacion1], State(RemoveAt(A1().frontier, 0), A1().best)) == A2()
  {
    var e := A1().frontier[0];
    var nbrs := Grafo[Estacion1];
    var popped := State(RemoveAt(A1().frontier, 0), A1().best);
    assert popped == State([], A1().best);
    var a := RelaxOne(EstimateTable, Estacion6, e, nbrs[0], popped);
    assert a == popped;
    assert Estacion2 !in a.best;
    assert Heuristic(EstimateTable, Estacion2, Estacion6) == 14;
    assert e.route + [Estacion2] == [PortalA, Estacion1, Estacion2];
    var b := RelaxOne(EstimateTable, Estacion6, e, nbrs[1], a);
    assert b == A2();
    assert nbrs[1..][1..] == [];
  }

  lemma StepA1()
    ensures Run(Grafo, EstimateTable, Estacion6, A1()) == Run(Grafo, EstimateTable, Estacion6, A2())
  {
    assert MinIndex(A1().frontier) == 0;
    RelaxA1();
    RunStepAt(Grafo, EstimateTable, Estacion6, A1(), 0, Grafo[Estacion1], A2());
  }

  lemma RelaxA2()
    ensures Relax(EstimateTable, Estacion6, A2().frontier[0], Grafo[Estacion2], State(RemoveAt(A2().frontier, 0), A2().best)) == A3()
  {
    var e := A2().frontier[0];
    var nbrs := Grafo[Estacion2];
    var popped := State(RemoveAt(A2().frontier, 0), A2().best);
    assert popped == State([], A2().best);
    var a := RelaxOne(EstimateTable, Estacion6, e, nbrs[0], popped);
    assert a == popped;
    assert Estacion3 !in a.best;
    assert Heuristic(EstimateTable, Estacion3, Estacion6) == 10;
    assert e.route + [Estacion3] == [PortalA, Estacion1, Estacion2, Estacion3];
    var b := RelaxOne(EstimateTable, Estacion6, e, nbrs[1], a);
    assert b == State([A3().frontier[0]], A2().best[Estacion3 := 15]);
    assert Estacion5 !in b.best;
    assert Heuristic(EstimateTable, Estacion5, Estacion6) == 8;
    assert e.route + [Estacion5] == [PortalA, Estacion1, Estacion2, Estacion5];
    var c := RelaxOne(EstimateTable, Estacion6, e, nbrs[2], b);
    assert c == A3();
    assert nbrs[1..][1..] == [nbrs[2]];
    assert nbrs[1..][1..][1..] == [];
  }

  lemma StepA2()
    ensures Run(Grafo, EstimateTable, Estacion6, A2()) == Run(Grafo, EstimateTable, Estacion6, A3())
  {
    assert MinIndex(A2().frontier) == 0;
    RelaxA2();
    RunStepAt(Grafo, EstimateTable, Estacion6, A2(), 0, Grafo[Estacion2], A3());
  }

  lemma RelaxA3()
    ensures Relax(EstimateTable, Estacion6, A3().frontier[1], Grafo[Estacion5], State(RemoveAt(A3().frontier, 1), A3().best)) == A4()
  {
    var e := A3().frontier[1];
    var nbrs := Grafo[Estacion5];
    var popped := State(RemoveAt(A3().frontier, 1), A3().best);
    assert popped == State([A3().frontier[0]], A3().best);
    var a := RelaxOne(EstimateTable, Estacion6, e, nbrs[0], popped);
    assert a == popped;
    assert Estacion6 !in a.best;
    assert Heuristic(EstimateTable, Estacion6, Estacion6) == 0;
    assert e.route + [Estacion6] == BestPath();
    var b := RelaxOne(EstimateTable, Estacion6, e, nbrs[1], a);
    assert b == A4();
    assert nbrs[1..][1..] == [];
  }

  lemma StepA3()
    ensures Run(Grafo, EstimateTable, Estacion6, A3()) == Run(Grafo, EstimateTable, Estacion6, A4())
  {
    assert A3().frontier[..1] == [A3().frontier[0]];
    assert MinIndex(A3().frontier) == 1;
    RelaxA3();
    RunStepAt(Grafo, EstimateTable, Estacion6, A3(), 1, Grafo[Estacion5], A4());
  }

  lemma StepA4()
    ensures Run(Grafo, EstimateTable, Estacion6, A4()) == Found(BestPath(), 19)
  {
    assert A4().frontier[..1] == [A4().frontier[0]];
    assert MinIndex(A4().frontier) == 1;
  }

  /** The search of the shipped knowledge base from `Portal_A` to
      `Estacion_6` returns `Portal_A -> Estacion_1 -> Estacion_2 ->
      Estacion_5 -> Estacion_6` at 19 minutes. */
  lemma FixtureQuery()
    ensures Search(GraphOf(Connections), EstimateTable, PortalA, Estacion6) == Found(BestPath(), 19)
  {
    FixtureGraph();
    StepA0();
    StepA1();
    StepA2();
    StepA3();
    StepA4();
  }

  // The states of the same search with no estimates (Dijkstra's algorithm).

  function D0(): State { Init(PortalA) }
  function D1(): State {
    State([Entry(5, 5, Estacion1, [PortalA, Estacion1])], map[PortalA := 0, Estacion1 := 5])
  }
  function D2(): State {
    State([Entry(9, 9, Estacion2, [PortalA, Estacion1, Estacion2])],
          map[PortalA := 0, Estacion1 := 5, Estacion2 := 9])
  }
  function D3(): State {
    State([Entry(15, 15, Estacion3, [PortalA, Estacion1, Estacion2, Estacion3]),
           Entry(16, 16, Estacion5, [PortalA, Estacion1, Estacion2, Estacion5])],
          map[PortalA := 0, Estacion1 := 5, Estacion2 := 9, Estacion3 := 15, Estacion5 := 16])
  }
  function D4(): State {
    State([Entry(16, 16, Estacion5, [PortalA, Estacion1, Estacion2, Estacion5]),
           Entry(20, 20, Estacion4, [PortalA, Estacion1, Estacion2, Estacion3, Estacion4])],
          map[PortalA := 0, Estacion1 := 5, Estacion2 := 9, Estacion3 := 15, Estacion5 := 16, Estacion4 := 20])
  }
  function D5(): State {
    State([Entry(20, 20, Estacion4, [PortalA, Estacion1, Estacion2, Estacion3, Estacion4]),
           Entry(19, 19, Estacion6, BestPath())],
          map[PortalA := 0, Estacion1 := 5, Estacion2 := 9, Estacion3 := 15, Estacion5 := 16, Estacion4 := 20,
              Estacion6 := 19])
  }

  lemma RelaxD0()
    ensures Relax(map[], Estacion6, D0().frontier[0], Grafo[PortalA], State(RemoveAt(D0().frontier, 0), D0().best)) == D1()
  {
    var e := D0().frontier[0];
    var popped := State(RemoveAt(D0().frontier, 0), D0().best);
    assert popped == State([], map[PortalA := 0]);
    assert Estacion1 !in popped.best;
    assert [PortalA] + [Estacion1] == [PortalA, Estacion1];
    var st1 := RelaxOne(map[], Estacion6, e, Neighbor(Estacion1, 5), popped);
    assert st1 == D1();
  }

  lemma StepD0()
    ensures Run(Grafo, map[], Estacion6, D0()) == Run(Grafo, map[], Estacion6, D1())
  {
    assert MinIndex(D0().frontier) == 0;
    RelaxD0();
    RunStepAt(Grafo, map[], Estacion6, D0(), 0, Grafo[PortalA], D1());
  }

  lemma RelaxD1()
    ensures Relax(map[], Estacion6, D1().frontier[0], Grafo[Estacion1], State(RemoveAt(D1().frontier, 0), D1().best)) == D2()
  {
    var e := D1().frontier[0];
    var nbrs := Grafo[Estacion1];
    var popped := State(RemoveAt(D1().frontier, 0), D1().best);
    assert popped == State([], D1().best);
    var a := RelaxOne(map[], Estacion6, e, nbrs[0], popped);
    assert a == popped;
    assert Estacion2 !in a.best;
    assert e.route + [Estacion2] == [PortalA, Estacion1, Estacion2];
    var b := RelaxOne(map[], Estacion6, e, nbrs[1], a);
    assert b == D2();
    assert nbrs[1..][1..] == [];
  }

  lemma StepD1()
    ensures Run(Grafo, map[], Estacion6, D1()) == Run(Grafo, map[], Estacion6, D2())
  {
    assert MinIndex(D1().frontier) == 0;
    RelaxD1();
    RunStepAt(Grafo, map[], Estacion6, D1(), 0, Grafo[Estacion1], D2());
  }

  lemma RelaxD2()
    ensures Relax(map[], Estacion6, D2().frontier[0], Grafo[Estacion2], State(RemoveAt(D2().frontier, 0), D2().best)) == D3()
  {
    var e := D2().frontier[0];
    var nbrs := Grafo[Estacion2];
    var popped := State(RemoveAt(D2().frontier, 0), D2().best);
    assert popped == State([], D2().best);
    var a := RelaxOne(map[], Estacion6, e, nbrs[0], popped);
    assert a == popped;
    assert Estacion3 !in a.best;
    assert e.route + [Estacion3] == [PortalA, Estacion1, Estacion2, Estacion3];
    var b := RelaxOne(map[], Estacion6, e, nbrs[1], a);
    assert b == State([D3().frontier[0]], D2().best[Estacion3 := 15]);
    assert Estacion5 !in b.best;
    assert e.route + [Estacion5] == [PortalA, Estacion1, Estacion2, Estacion5];
    var c := RelaxOne(map[], Estacion6, e, nbrs[2], b);
    assert c == D3();
    assert nbrs[1..][1..] == [nbrs[2]];
    assert nbrs[1..][1..][1..] == [];
  }

  lemma StepD2()
    ensures Run(Grafo, map[], Estacion6, D2()) == Run(Grafo, map[], Estacion6, D3())
  {
    assert MinIndex(D2().frontier) == 0;
    RelaxD2();
    RunStepAt(Grafo, map[], Estacion6, D2(), 0, Grafo[Estacion2], D3());
  }

  lemma RelaxD3()
    ensures Relax(map[], Estacion6, D3().frontier[0], Grafo[Estacion3], State(RemoveAt(D3().frontier, 0), D3().best)) == D4()
  {
    var e := D3().frontier[0];
    var nbrs := Grafo[Estacion3];
    var popped := State(RemoveAt(D3().frontier, 0), D3().best);
    assert popped == State([D3().frontier[1]], D3().best);
    var a := RelaxOne(map[], Estacion6, e, nbrs[0], popped);
    assert a == popped;
    assert Estacion4 !in a.best;
    assert e.route + [Estacion4] == [PortalA, Estacion1, Estacion2, Estacion3, Estacion4];
    var b := RelaxOne(map[], Estacion6, e, nbrs[1], a);
    assert b == D4();
    assert nbrs[1..][1..] == [];
  }

  lemma StepD3()
    ensures Run(Grafo, map[], Estacion6, D3()) == Run(Grafo, map[], Estacion6, D4())
  {
    assert D3().frontier[..1] == [D3().frontier[0]];
    assert MinIndex(D3().frontier) == 0;
    RelaxD3();
    RunStepAt(Grafo, map[], Estacion6, D3(), 0, Grafo[Estacion3], D4());
  }

  lemma RelaxD4()
    ensures Relax(map[], Estacion6, D4().frontier[0], Grafo[Estacion5], State(RemoveAt(D4().frontier, 0), D4().best)) == D5()
  {
    var e := D4().frontier[0];
    var nbrs := Grafo[Estacion5];
    var popped := State(RemoveAt(D4().frontier, 0), D4().best);
    assert popped == State([D4().frontier[1]], D4().best);
    var a := RelaxOne(map[], Estacion6, e, nbrs[0], popped);
    assert a == popped;
    assert Estacion6 !in a.best;
    assert e.route + [Estacion6] == BestPath();
    var b := RelaxOne(map[], Estacion6, e, nbrs[1], a);
    assert b == D5();
    assert nbrs[1..][1..] == [];
  }

  lemma StepD4()
    ensures Run(Grafo, map[], Estacion6, D4()) == Run(Grafo, map[], Estacion6, D5())
  {
    assert D4().frontier[..1] == [D4().frontier[0]];
    assert MinIndex(D4().frontier) == 0;
    RelaxD4();
    RunStepAt(Grafo, map[], Estacion6, D4(), 0, Grafo[Estacion5], D5());
  }

  lemma StepD5()
    ensures Run(Grafo, map[], Estacion6, D5()) == Found(BestPath(), 19)
  {
    assert D5().frontier[..1] == [D5().frontier[0]];
    assert MinIndex(D5().frontier) == 1;
  }

  /** Without estimates the search returns the same route at the same cost. */
  lemma FixtureDijkstra()
    ensures Search(GraphOf(Connections), map[], PortalA, Estacion6) == Found(BestPath(), 19)
  {
    FixtureGraph();
    StepD0();
    StepD1();
    StepD2();
    StepD3();
    StepD4();
    StepD5();
  }

  /** No walk from `Portal_A` to `Estacion_6` takes less than 19 minutes, so
      the route the shipped search returns is a fastest one. */
  lemma FixtureQueryOptimal(hops: seq<Neighbor>)
    requires IsWalk(Grafo, PortalA, hops) && WalkEnd(PortalA, hops) == Estacion6
    ensures 19 <= Cost(hops)
  {
    FixtureDijkstra();
    FixtureGraph();
    DijkstraOptimal(Grafo, PortalA, Estacion6, hops);
  }

  /** From `Estacion_3` the walk through `Estacion_4` reaches `Estacion_6`
      in 9 minutes, one less than the table's estimate of 10. */
  lemma FixtureTableOverestimates()
    ensures !Admissible(Grafo, EstimateTable, Estacion6)
  {
    var hops := [Neighbor(Estacion4, 5), Neighbor(Estacion6, 4)];
    assert Edge(Grafo, At(Estacion3, hops, 0), hops[0]);
    assert Edge(Grafo, At(Estacion3, hops, 1), hops[1]);
    assert IsWalk(Grafo, Estacion3, hops);
    assert hops[..1][..0] == [] && hops[..1] == [hops[0]];
    assert Cost(hops[..1]) == 5;
    assert Cost(hops) == 9;
    assert Heuristic(EstimateTable, Estacion3, Estacion6) == 10;
  }
}
