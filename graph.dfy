/** The knowledge base of station connections, the adjacency structure built
    from it, and walks through that structure. */
module Graph {
  import opened Sums

  /** Stations are compared only for equality (and, in the frontier, by `StrLess`). */
  type Station = string

  /** A fact: `origin` and `dest` are connected and the trip takes `time` minutes. */
  datatype Fact = Fact(origin: Station, dest: Station, time: nat)

  /** One entry of a neighbour list: the station reached and the minutes it takes. */
  datatype Neighbor = Neighbor(station: Station, time: nat)

  /** The adjacency structure: each station's neighbour list. */
  type Graph = map<Station, seq<Neighbor>>

  /** Every station named by the facts, as an origin or as a destination. */
  function Stations(facts: seq<Fact>): set<Station> {
    (set f | f in facts :: f.origin) + (set f | f in facts :: f.dest)
  }

  /** What fact `f` appends to the neighbour list of `s`: the entry added to the
      origin's list comes first, the one added to the destination's list second. */
  function Contribution(f: Fact, s: Station): seq<Neighbor> {
    (if f.origin == s then [Neighbor(f.dest, f.time)] else [])
    + (if f.dest == s then [Neighbor(f.origin, f.time)] else [])
  }

  /** The neighbour list of `s` once all of `facts` are inserted, in insertion order. */
  function Adjacent(facts: seq<Fact>, s: Station): seq<Neighbor> {
    if facts == [] then []
    else Adjacent(facts[..|facts| - 1], s) + Contribution(facts[|facts| - 1], s)
  }

  /** The adjacency structure that the facts describe. */
  function GraphOf(facts: seq<Fact>): Graph {
    map s | s in Stations(facts) :: Adjacent(facts, s)
  }

  /** The length of each station's neighbour list. */
  function Lengths(g: Graph): map<Station, nat> {
    map s | s in g :: |g[s]|
  }

  /** The number of entries held by all neighbour lists together. */
  ghost function EntryCount(g: Graph): nat {
    MapSum(Lengths(g))
  }

  /** Builds the adjacency structure: one pass over the facts, creating the
      list of a station the first time it is named and appending one entry to
      the origin's list and one to the destination's list per fact. */
  method BuildGraph(facts: seq<Fact>) returns (g: Graph)
    ensures g.Keys == Stations(facts)
    ensures forall s :: s in g ==> g[s] == Adjacent(facts, s)
    ensures g == GraphOf(facts)
  {
    g := map[];
    for i := 0 to |facts|
      invariant Built(g, facts[..i])
    {
      var f := facts[i];
      ghost var before := g;
      if f.origin !in g {
        g := g[f.origin := []];
      }
      if f.dest !in g {
        g := g[f.dest := []];
      }
      assert g == WithKeys(before, f);
      g := g[f.origin := g[f.origin] + [Neighbor(f.dest, f.time)]];
      g := g[f.dest := g[f.dest] + [Neighbor(f.origin, f.time)]];
      assert g == Insert(before, f);
      InsertPrefix(before, facts, i);
    }
    assert facts[..|facts|] == facts;
    GraphOfUnique(g, facts);
  }

  /** `g` has a list for exactly the stations the facts name, and each list
      holds what the facts contribute to it, in order. */
  predicate Built(g: Graph, facts: seq<Fact>) {
    g.Keys == Stations(facts) && forall s :: s in g ==> g[s] == Adjacent(facts, s)
  }

  /** A structure with the right keys and the right lists is `GraphOf(facts)`. */
  lemma GraphOfUnique(g: Graph, facts: seq<Fact>)
    requires Built(g, facts)
    ensures g == GraphOf(facts)
  {
  }

  /** `g` with an empty list created for each station of `f` that has none. */
  function WithKeys(g: Graph, f: Fact): Graph {
    var g1 := if f.origin in g then g else g[f.origin := []];
    if f.dest in g1 then g1 else g1[f.dest := []]
  }

  /** One turn of the loop of `BuildGraph`: create the missing lists, then
      append `f`'s entry to the origin's list and then to the destination's. */
  function Insert(g: Graph, f: Fact): Graph {
    var keyed := WithKeys(g, f);
    var mid := keyed[f.origin := keyed[f.origin] + [Neighbor(f.dest, f.time)]];
    mid[f.dest := mid[f.dest] + [Neighbor(f.origin, f.time)]]
  }

  /** The two appends of one loop turn leave the lists of the two stations of
      `f` extended by `f`'s contribution, and no other list changed. */
  lemma AppendBoth(before: Graph, f: Fact)
    ensures Insert(before, f).Keys == before.Keys + {f.origin, f.dest}
    ensures forall s :: s in Insert(before, f) ==> Insert(before, f)[s] == Neighbors(before, s) + Contribution(f, s)
  {
    forall s ensures (s in Insert(before, f) <==> s in before.Keys + {f.origin, f.dest})
                  && (s in Insert(before, f) ==> Insert(before, f)[s] == Neighbors(before, s) + Contribution(f, s)) {
      AppendAt(before, f, s);
    }
  }

  /** `AppendBoth` at one station. */
  lemma AppendAt(before: Graph, f: Fact, s: Station)
    ensures s in Insert(before, f) <==> s in before.Keys + {f.origin, f.dest}
    ensures s in Insert(before, f) ==> Insert(before, f)[s] == Neighbors(before, s) + Contribution(f, s)
  {
    var keyed := WithKeys(before, f);
    assert s in keyed <==> s in before.Keys + {f.origin, f.dest};
    assert s in keyed ==> keyed[s] == Neighbors(before, s);
  }

  /** One turn of the loop turns the structure of `facts` into the structure
      of `facts + [f]`. */
  lemma InsertFact(before: Graph, facts: seq<Fact>, f: Fact)
    requires Built(before, facts)
    ensures Built(Insert(before, f), facts + [f])
  {
    var after := Insert(before, f);
    AppendBoth(before, f);
    GraphOfSnoc(facts, f);
    forall s | s in after ensures after[s] == Adjacent(facts + [f], s) {
      if s !in before {
        AdjacentNotNamed(facts, s);
      }
    }
  }

  /** `InsertFact` for the loop's prefixes: turn `i` builds the structure of the first `i + 1` facts. */
  lemma InsertPrefix(before: Graph, facts: seq<Fact>, i: nat)
    requires i < |facts| && Built(before, facts[..i])
    ensures Built(Insert(before, facts[i]), facts[..i + 1])
  {
    InsertFact(before, facts[..i], facts[i]);
    assert facts[..i + 1] == facts[..i] + [facts[i]];
  }

  /** The list of `s` after the first `k + 1` facts is its list after the
      first `k`, followed by what fact `k` contributes. */
  lemma AdjacentPrefixStep(facts: seq<Fact>, k: nat, s: Station)
    requires k < |facts|
    ensures Adjacent(facts[..k + 1], s) == Adjacent(facts[..k], s) + Contribution(facts[k], s)
  {
    assert facts[..k + 1][..k] == facts[..k];
  }

  /** A station that no fact names has an empty list. */
  lemma {:induction false} AdjacentNotNamed(facts: seq<Fact>, s: Station)
    requires s !in Stations(facts)
    ensures Adjacent(facts, s) == []
  {
    if facts != [] {
      var n := |facts| - 1;
      assert facts[n] in facts;
      assert forall f :: f in facts[..n] ==> f in facts;
      AdjacentNotNamed(facts[..n], s);
    }
  }

  /** The neighbour lists together hold two entries per fact. */
  lemma {:induction false} GraphOfEntryCount(facts: seq<Fact>)
    ensures EntryCount(GraphOf(facts)) == 2 * |facts|
  {
    if facts == [] {
      assert Lengths(GraphOf(facts)) == map[];
    } else {
      var n := |facts| - 1;
      var f := facts[n];
      GraphOfEntryCount(facts[..n]);
      assert facts[..n] + [f] == facts;
      LengthsSnoc(facts[..n], f);
      MapSumBump(Lengths(GraphOf(facts[..n])), f.origin);
      MapSumBump(Bump(Lengths(GraphOf(facts[..n])), f.origin), f.dest);
    }
  }

  /** One more fact lengthens the list of its origin by one and that of its destination by one. */
  lemma LengthsSnoc(facts: seq<Fact>, f: Fact)
    ensures Lengths(GraphOf(facts + [f])) == Bump(Bump(Lengths(GraphOf(facts)), f.origin), f.dest)
  {
    var after := Lengths(GraphOf(facts + [f]));
    var bumped := Bump(Bump(Lengths(GraphOf(facts)), f.origin), f.dest);
    forall s ensures (s in after <==> s in bumped) && (s in after ==> after[s] == bumped[s]) {
      LengthsSnocAt(facts, f, s);
    }
  }

  /** `LengthsSnoc` at one station. */
  lemma LengthsSnocAt(facts: seq<Fact>, f: Fact, s: Station)
    ensures s in Lengths(GraphOf(facts + [f])) <==> s in Bump(Bump(Lengths(GraphOf(facts)), f.origin), f.dest)
    ensures s in Lengths(GraphOf(facts + [f])) ==> Lengths(GraphOf(facts + [f]))[s] == Bump(Bump(Lengths(GraphOf(facts)), f.origin), f.dest)[s]
  {
    StationsSnoc(facts, f);
    LengthsAt(facts, s);
    LengthsAt(facts + [f], s);
    if s in Stations(facts + [f]) {
      LengthSnoc(facts, f, s);
    }
  }

  /** `Lengths(GraphOf(facts))` at one station. */
  lemma LengthsAt(facts: seq<Fact>, s: Station)
    ensures s in Lengths(GraphOf(facts)) <==> s in Stations(facts)
    ensures s in Stations(facts) ==> Lengths(GraphOf(facts))[s] == |Adjacent(facts, s)|
  {
  }

  /** One more fact adds its two stations to the set of stations named. */
  lemma StationsSnoc(facts: seq<Fact>, f: Fact)
    ensures Stations(facts + [f]) == Stations(facts) + {f.origin, f.dest}
  {
    var all := facts + [f];
    forall s | s in Stations(all) ensures s in Stations(facts) + {f.origin, f.dest} {
      var g :| g in all && (s == g.origin || s == g.dest);
      if g != f {
        assert g in facts;
      }
    }
  }

  /** The length of one list after inserting `f`. */
  lemma LengthSnoc(facts: seq<Fact>, f: Fact, s: Station)
    requires s in Stations(facts + [f])
    ensures |Adjacent(facts + [f], s)|
         == (if s in Stations(facts) then |Adjacent(facts, s)| else 0)
          + (if s == f.origin then 1 else 0) + (if s == f.dest then 1 else 0)
  {
    GraphOfSnoc(facts, f);
    if s !in Stations(facts) {
      AdjacentNotNamed(facts, s);
    }
  }

  /** Inserting one more fact adds its two stations and extends two lists. */
  lemma GraphOfSnoc(facts: seq<Fact>, f: Fact)
    ensures Stations(facts + [f]) == Stations(facts) + {f.origin, f.dest}
    ensures forall s :: Adjacent(facts + [f], s) == Adjacent(facts, s) + Contribution(f, s)
  {
    assert (facts + [f])[..|facts|] == facts;
    StationsSnoc(facts, f);
  }

  /** Symmetry: every fact puts each of its stations in the other's list, with its time. */
  lemma {:induction false} AdjacentHasFact(facts: seq<Fact>, i: nat)
    requires i < |facts|
    ensures Neighbor(facts[i].dest, facts[i].time) in Adjacent(facts, facts[i].origin)
    ensures Neighbor(facts[i].origin, facts[i].time) in Adjacent(facts, facts[i].dest)
  {
    var n := |facts| - 1;
    if i < n {
      AdjacentHasFact(facts[..n], i);
    }
  }

  /** Fact `f` connects `s` to the station of `nb` with the time of `nb`. */
  predicate FactGives(f: Fact, s: Station, nb: Neighbor) {
    (f.origin == s && nb == Neighbor(f.dest, f.time)) || (f.dest == s && nb == Neighbor(f.origin, f.time))
  }

  /** Conversely, every entry of a list comes from a fact naming that station. */
  lemma {:induction false} AdjacentFromFact(facts: seq<Fact>, s: Station, nb: Neighbor)
    requires nb in Adjacent(facts, s)
    ensures exists i :: 0 <= i < |facts| && FactGives(facts[i], s, nb)
  {
    var n := |facts| - 1;
    if nb in Adjacent(facts[..n], s) {
      AdjacentFromFact(facts[..n], s, nb);
      var i :| 0 <= i < n && FactGives(facts[..n][i], s, nb);
      assert facts[..n][i] == facts[i];
    } else {
      assert nb in Contribution(facts[n], s);
    }
  }

  /** The list of a station: `grafo.get(s, [])`. */
  function Neighbors(g: Graph, s: Station): seq<Neighbor> {
    if s in g then g[s] else []
  }

  /** `nb` is in the neighbour list of `s`. */
  predicate Edge(g: Graph, s: Station, nb: Neighbor) {
    nb in Neighbors(g, s)
  }

  /** The graph built from facts is symmetric: each edge has its reverse, with the same time. */
  lemma GraphOfSymmetric(facts: seq<Fact>, s: Station, nb: Neighbor)
    requires Edge(GraphOf(facts), s, nb)
    ensures Edge(GraphOf(facts), nb.station, Neighbor(s, nb.time))
  {
    AdjacentFromFact(facts, s, nb);
    var i :| 0 <= i < |facts| && FactGives(facts[i], s, nb);
    AdjacentHasFact(facts, i);
    assert facts[i] in facts;
  }

  /** A walk from `from` is the sequence of neighbour entries it follows.
      `At(from, hops, i)` is the station it stands at after `i` hops. */
  function At(from: Station, hops: seq<Neighbor>, i: nat): Station
    requires i <= |hops|
  {
    if i == 0 then from else hops[i - 1].station
  }

  /** The station a walk ends at. */
  function WalkEnd(from: Station, hops: seq<Neighbor>): Station {
    At(from, hops, |hops|)
  }

  /** Every hop of the walk follows an entry of the current station's list. */
  predicate IsWalk(g: Graph, from: Station, hops: seq<Neighbor>) {
    forall i {:trigger At(from, hops, i)} :: 0 <= i < |hops| ==> Edge(g, At(from, hops, i), hops[i])
  }

  /** The total time of a walk: the sum of its edge times. */
  function Cost(hops: seq<Neighbor>): nat {
    if hops == [] then 0 else Cost(hops[..|hops| - 1]) + hops[|hops| - 1].time
  }

  /** The stations a walk visits, first to last. */
  function Route(from: Station, hops: seq<Neighbor>): seq<Station> {
    if hops == [] then [from] else Route(from, hops[..|hops| - 1]) + [hops[|hops| - 1].station]
  }

  /** A route starts where the walk starts, ends where it ends, and has one
      station more than the walk has hops. */
  lemma {:induction false} RouteEnds(from: Station, hops: seq<Neighbor>)
    ensures |Route(from, hops)| == |hops| + 1
    ensures Route(from, hops)[0] == from
    ensures Route(from, hops)[|hops|] == WalkEnd(from, hops)
  {
    if hops != [] {
      RouteEnds(from, hops[..|hops| - 1]);
    }
  }

  /** The `i`-th station of a walk's route is where the walk stands after `i` hops. */
  lemma {:induction false} RouteAt(from: Station, hops: seq<Neighbor>, i: nat)
    requires i <= |hops|
    ensures |Route(from, hops)| == |hops| + 1
    ensures Route(from, hops)[i] == At(from, hops, i)
  {
    RouteEnds(from, hops);
    if i < |hops| {
      var n := |hops| - 1;
      RouteAt(from, hops[..n], i);
    }
  }

  /** Consecutive stations of a route: each is listed as a neighbour of the one before. */
  ghost predicate Linked(g: Graph, route: seq<Station>) {
    forall i :: 0 <= i < |route| - 1 ==> exists nb :: nb in Neighbors(g, route[i]) && nb.station == route[i + 1]
  }

  /** The route of a walk is linked. */
  lemma WalkLinked(g: Graph, from: Station, hops: seq<Neighbor>)
    requires IsWalk(g, from, hops)
    ensures Linked(g, Route(from, hops))
  {
    var r := Route(from, hops);
    RouteEnds(from, hops);
    forall i | 0 <= i < |r| - 1 ensures exists nb :: nb in Neighbors(g, r[i]) && nb.station == r[i + 1] {
      RouteAt(from, hops, i);
      RouteAt(from, hops, i + 1);
      assert Edge(g, At(from, hops, i), hops[i]);
    }
  }

  /** One more hop along an edge from the end extends a walk, its route and its cost. */
  lemma ExtendWalk(g: Graph, from: Station, hops: seq<Neighbor>, nb: Neighbor)
    requires IsWalk(g, from, hops) && Edge(g, WalkEnd(from, hops), nb)
    ensures IsWalk(g, from, hops + [nb])
    ensures Route(from, hops + [nb]) == Route(from, hops) + [nb.station]
    ensures Cost(hops + [nb]) == Cost(hops) + nb.time
  {
    var longer := hops + [nb];
    assert longer[..|hops|] == hops;
    forall i | 0 <= i < |longer| ensures Edge(g, At(from, longer, i), longer[i]) {
      if i < |hops| {
        assert At(from, longer, i) == At(from, hops, i);
      }
    }
  }

  /** The rest of a walk after `j` hops ends where the whole walk ends. */
  lemma WalkSuffixEnd(from: Station, hops: seq<Neighbor>, j: nat)
    requires j <= |hops|
    ensures WalkEnd(At(from, hops, j), hops[j..]) == WalkEnd(from, hops)
  {
    if j < |hops| {
      assert hops[j..][|hops| - j - 1] == hops[|hops| - 1];
    }
  }

  /** The rest of a walk after `j` hops is a walk from where it stands, to the same end. */
  lemma WalkSuffix(g: Graph, from: Station, hops: seq<Neighbor>, j: nat)
    requires IsWalk(g, from, hops) && j <= |hops|
    ensures IsWalk(g, At(from, hops, j), hops[j..])
    ensures WalkEnd(At(from, hops, j), hops[j..]) == WalkEnd(from, hops)
  {
    var mid := At(from, hops, j);
    forall i | 0 <= i < |hops| - j ensures Edge(g, At(mid, hops[j..], i), hops[j..][i]) {
      assert At(mid, hops[j..], i) == At(from, hops, j + i);
    }
    WalkSuffixEnd(from, hops, j);
  }

  /** The cost of a walk is the cost of its first `j` hops plus that of the rest. */
  lemma {:induction false} CostSplit(hops: seq<Neighbor>, j: nat)
    requires j <= |hops|
    ensures Cost(hops) == Cost(hops[..j]) + Cost(hops[j..])
  {
    if j < |hops| {
      var n := |hops| - 1;
      CostSplit(hops[..n], j);
      assert hops[..n][..j] == hops[..j];
      assert hops[j..][..|hops[j..]| - 1] == hops[..n][j..];
    } else {
      assert hops[..j] == hops;
    }
  }
}
