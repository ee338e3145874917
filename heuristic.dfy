/** The heuristic rule: a table of estimated minutes left to the destination,
    and the properties of such a table that make the route finder exact. */
module Heuristics {
  import opened Graph

  /** Estimated minutes from a station to the destination. */
  type Table = map<Station, nat>

  /** The estimate for `station`: its table value, or 0 when the table has
      none. The destination does not take part in the lookup. */
  function Heuristic(table: Table, station: Station, goal: Station): nat {
    if station in table then table[station] else 0
  }

  /** The lookup gives the table value when there is one, 0 otherwise, and
      the same value whatever the destination. */
  lemma HeuristicLookup(table: Table, station: Station, goal: Station, other: Station)
    ensures station in table ==> Heuristic(table, station, goal) == table[station]
    ensures station !in table ==> Heuristic(table, station, goal) == 0
    ensures Heuristic(table, station, goal) == Heuristic(table, station, other)
  {
  }

  /** The estimate never exceeds the cost of any walk from the station to `goal`. */
  ghost predicate Admissible(g: Graph, table: Table, goal: Station) {
    forall v, hops :: IsWalk(g, v, hops) && WalkEnd(v, hops) == goal ==> Heuristic(table, v, goal) <= Cost(hops)
  }

  /** Along every edge the estimate falls by at most the edge's time. */
  ghost predicate Consistent(g: Graph, table: Table, goal: Station) {
    forall u, nb :: Edge(g, u, nb) ==> Heuristic(table, u, goal) <= nb.time + Heuristic(table, nb.station, goal)
  }

  /** A consistent table that estimates 0 at the destination is admissible. */
  lemma ConsistentAdmissible(g: Graph, table: Table, goal: Station)
    requires Consistent(g, table, goal)
    requires Heuristic(table, goal, goal) == 0
    ensures Admissible(g, table, goal)
  {
    forall v, hops | IsWalk(g, v, hops) && WalkEnd(v, hops) == goal
      ensures Heuristic(table, v, goal) <= Cost(hops)
    {
      ConsistentBound(g, table, goal, v, hops);
    }
  }

  /** Along a walk, a consistent estimate falls by at most the walk's cost. */
  lemma {:induction false} ConsistentBound(g: Graph, table: Table, goal: Station, v: Station, hops: seq<Neighbor>)
    requires Consistent(g, table, goal)
    requires IsWalk(g, v, hops)
    ensures Heuristic(table, v, goal) <= Cost(hops) + Heuristic(table, WalkEnd(v, hops), goal)
    decreases |hops|
  {
    if hops != [] {
      assert Edge(g, At(v, hops, 0), hops[0]);
      WalkSuffix(g, v, hops, 1);
      CostSplit(hops, 1);
      assert hops[..1] == [hops[0]];
      assert Cost([hops[0]]) == hops[0].time by {
        assert [hops[0]][..0] == [];
      }
      ConsistentBound(g, table, goal, hops[0].station, hops[1..]);
    }
  }

  /** The empty table (every estimate 0, the Dijkstra case) is admissible. */
  lemma EmptyTableAdmissible(g: Graph, goal: Station)
    ensures Admissible(g, map[], goal)
  {
  }
}
