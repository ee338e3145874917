/** The check the program makes before it searches: both stations must be
    keys of the adjacency structure. Reading the two names and printing the
    answer are not modelled. */
module Query {
  import opened Graph
  import opened Heuristics
  import opened AStar
  import opened AStarProofs

  /** What the program reports for a query. */
  datatype Answer = UnknownStation | NoRoute | Best(route: seq<Station>, cost: nat)

  /** Rejects an origin or destination without a list, and otherwise reports
      the search's answer. */
  function Consult(g: Graph, table: Table, origin: Station, dest: Station): Answer {
    if origin !in g || dest !in g then UnknownStation
    else
      match Search(g, table, origin, dest)
      case Exhausted => NoRoute
      case Found(route, cost) => Best(route, cost)
  }

  /** The program names an unknown station exactly when one of the two is not
      a key; it reports no route exactly when both are keys and no walk joins
      them; a reported route is a walk between them at the reported cost. */
  lemma ConsultCorrect(g: Graph, table: Table, origin: Station, dest: Station)
    ensures Consult(g, table, origin, dest) == UnknownStation <==> origin !in g || dest !in g
    ensures Consult(g, table, origin, dest) == NoRoute
        <==> origin in g && dest in g && !exists hops :: IsWalk(g, origin, hops) && WalkEnd(origin, hops) == dest
    ensures Consult(g, table, origin, dest).Best? ==>
              var a := Consult(g, table, origin, dest);
              Walks(g, origin, dest, a.route, a.cost)
  {
    SearchFindsIffReachable(g, table, origin, dest);
    SearchCorrect(g, table, origin, dest);
  }
}
