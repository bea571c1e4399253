/** What one node makes of what it hears: if every neighbour's route to d is right up to level r, the best choice over
    them is right up to level r + 1. Nothing here refers to when the neighbours spoke. */
module Convergence {
  import opened Bytes
  import opened Arithmetic
  import opened Routing
  import opened DistanceVector
  import opened Graph
  import opened Network

  /** An absent route counts as infinitely far. */
  function Metric(v: Option<Entry>): nat {
    if v.Some? then v.value.metric else ROUTE_METRIC_INFINITY
  }

  // ---------- the ideal route ----------

  /** A shortest path's metric, through the least-numbered neighbour that is one hop nearer. */
  ghost predicate Shortest(g: Graph, u: NodeId, d: NodeId, v: Option<Entry>) {
    && v.Some?
    && v.value.metric == Dist(g, u, d)
    && v.value.nextHop in Links(g, u)
    && Dist(g, v.value.nextHop, d) == Dist(g, u, d) - 1
    && forall n | n in Links(g, u) && Dist(g, n, d) == Dist(g, u, d) - 1 :: !NodeLess(n, v.value.nextHop)
  }

  /** No route to oneself or to the unreachable, a shortest one to everybody else. */
  ghost predicate Ideal(g: Graph, u: NodeId, d: NodeId, v: Option<Entry>) {
    if 1 <= Dist(g, u, d) < ROUTE_METRIC_INFINITY then Shortest(g, u, d, v) else v.None?
  }

  /** What u hears about d is right enough: nearer neighbours tell the truth and do not route through u,
      the others do not claim to be nearer than u is. */
  ghost predicate GoodNews(g: Graph, column: Column, u: NodeId, d: NodeId) {
    forall n | n in Links(g, u) && n != d ::
      if Dist(g, n, d) < Dist(g, u, d)
      then n in column && column[n].metric == Dist(g, n, d) && column[n].nextHop != u
      else Metric(At(column, n)) >= Dist(g, u, d)
  }

  lemma GoodNewsGivesShortest(g: Graph, column: Column, u: NodeId, d: NodeId, v: Option<Entry>)
    requires ValidGraph(g) && u in g.nodes && d in g.nodes && 1 <= Dist(g, u, d) < ROUTE_METRIC_INFINITY
    requires GoodNews(g, column, u, d) && BestChoice(g, column, u, d, v)
    ensures Shortest(g, u, d, v)
  {
    var k := Dist(g, u, d);
    DistZero(g, u, d);
    DistZero(g, d, d);
    forall n | n in Links(g, u)
      ensures Dist(g, n, d) >= k - 1 && (Dist(g, n, d) == k - 1 ==> Choice(g, column, u, d, Entry(k, n)))
    {
      DistStep(g, u, n, d);
      DistZero(g, n, d);
    }
    var nearer := DistNearer(g, u, d);
    assert Choice(g, column, u, d, Entry(k, nearer));
    var e := v.value;
    assert e.metric <= k && e.nextHop in Links(g, u);
    forall n | n in Links(g, u) && Dist(g, n, d) == k - 1 ensures e.metric == k && !NodeLess(n, e.nextHop) {
      assert !Better(Entry(k, n), e);
    }
  }

  // ---------- from garbage ----------

  /** v as u's route to d, right up to level r: it does not make d look nearer than min(distance, r), it is the
      shortest route when d is less than r hops away, and there is none to oneself from level 3 on and none to the
      unreachable from level 16 on. */
  ghost predicate Level(g: Graph, r: nat, u: NodeId, d: NodeId, v: Option<Entry>) {
    && (u != d ==> Metric(v) >= Min(Dist(g, u, d), r))
    && (1 <= Dist(g, u, d) < ROUTE_METRIC_INFINITY && Dist(g, u, d) < r ==> Shortest(g, u, d, v))
    && (u == d && r >= 3 ==> v.None?)
    && (Dist(g, u, d) == ROUTE_METRIC_INFINITY && r >= ROUTE_METRIC_INFINITY ==> v.None?)
  }

  ghost predicate HeardLevel(g: Graph, r: nat, u: NodeId, d: NodeId, column: Column) {
    forall n | n in Links(g, u) :: Level(g, r, n, d, At(column, n))
  }

  /** Bounded counting to infinity: one more level, one more hop at least. */
  lemma NotTooNear(g: Graph, r: nat, u: NodeId, d: NodeId, column: Column, v: Option<Entry>)
    requires ValidGraph(g) && u in g.nodes && d in g.nodes && u != d
    requires HeardLevel(g, r, u, d, column) && BestChoice(g, column, u, d, v)
    ensures Metric(v) >= Min(Dist(g, u, d), r + 1)
  {
    DistZero(g, u, d);
    InBallIff(g, u, d, 0);
    if v.Some? && v.value.nextHop != d {
      DistStep(g, u, v.value.nextHop, d);
    }
  }

  lemma ShortestSettles(g: Graph, r: nat, u: NodeId, d: NodeId, column: Column, v: Option<Entry>)
    requires ValidGraph(g) && u in g.nodes && d in g.nodes && 1 <= Dist(g, u, d) < ROUTE_METRIC_INFINITY
    requires Dist(g, u, d) <= r && HeardLevel(g, r, u, d, column) && BestChoice(g, column, u, d, v)
    ensures Shortest(g, u, d, v)
  {
    var k := Dist(g, u, d);
    forall n | n in Links(g, u) && n != d
      ensures if Dist(g, n, d) < k
              then n in column && column[n].metric == Dist(g, n, d) && column[n].nextHop != u
              else Metric(At(column, n)) >= k
    {
      DistStep(g, u, n, d);
      DistZero(g, n, d);
    }
    GoodNewsGivesShortest(g, column, u, d, v);
  }

  /** Poison reverse removes routes to oneself. */
  lemma SelfForgotten(g: Graph, r: nat, d: NodeId, column: Column, v: Option<Entry>)
    requires ValidGraph(g) && d in g.nodes && r >= 2
    requires HeardLevel(g, r, d, d, column) && BestChoice(g, column, d, d, v)
    ensures v.None?
  {
    forall n | n in Links(g, d) ensures OfferTo(column, n, d).None? {
      DistZero(g, n, d);
      DistZero(g, column[n].nextHop, d);
    }
  }

  /** Whatever the neighbours say counts for one level more at u. */
  lemma LevelUp(g: Graph, r: nat, u: NodeId, d: NodeId, column: Column, v: Option<Entry>)
    requires ValidGraph(g) && u in g.nodes && d in g.nodes
    requires HeardLevel(g, r, u, d, column) && BestChoice(g, column, u, d, v)
    ensures Level(g, r + 1, u, d, v)
  {
    if u != d {
      NotTooNear(g, r, u, d, column, v);
    } else if r >= 2 {
      SelfForgotten(g, r, d, column, v);
    }
    if 1 <= Dist(g, u, d) < ROUTE_METRIC_INFINITY && Dist(g, u, d) <= r {
      ShortestSettles(g, r, u, d, column, v);
    }
    DistZero(g, u, d);
  }

  /** Level 0 says nothing. */
  lemma LevelZero(g: Graph, u: NodeId, d: NodeId, v: Option<Entry>)
    requires ValidGraph(g) && d in g.nodes
    ensures Level(g, 0, u, d, v)
  {
    InBallIff(g, u, d, 0);
  }

  lemma LevelDown(g: Graph, r: nat, r': nat, u: NodeId, d: NodeId, v: Option<Entry>)
    requires r' <= r && Level(g, r, u, d, v)
    ensures Level(g, r', u, d, v)
  {
  }

  /** From level 16 on every route, or its absence, is ideal. */
  lemma LevelIsIdeal(g: Graph, r: nat, u: NodeId, d: NodeId, v: Option<Entry>)
    requires ValidGraph(g) && u in g.nodes && d in g.nodes && r >= ROUTE_METRIC_INFINITY && Level(g, r, u, d, v)
    ensures Ideal(g, u, d, v)
  {
    DistZero(g, u, d);
    InBallIff(g, u, d, 0);
  }

  // ---------- one neighbour's news, before the table is rebuilt ----------

  /** What u makes of n's route to d when n's advertisement is applied to the route u holds. */
  function Taken(held: Option<Entry>, said: Option<Entry>, u: NodeId, n: NodeId, d: NodeId): Option<Entry> {
    PointUpdate(held, Received(said, u), n, d, 1)
  }

  /** If n is u's next hop on a shortest route, n told the truth and did not route through u. */
  lemma NextHopTellsTruth(g: Graph, r: nat, u: NodeId, n: NodeId, d: NodeId, said: Option<Entry>)
    requires ValidGraph(g) && u in g.nodes && d in g.nodes && n in Links(g, u) && n != d
    requires Dist(g, u, d) <= r && Dist(g, u, d) < ROUTE_METRIC_INFINITY && Dist(g, n, d) == Dist(g, u, d) - 1
    requires Level(g, r, n, d, said)
    ensures said.Some? && said.value.metric == Dist(g, n, d) && said.value.nextHop != u
  {
    DistZero(g, n, d);
  }

  lemma TakenNotTooNear(g: Graph, r: nat, u: NodeId, n: NodeId, d: NodeId, held: Option<Entry>, said: Option<Entry>)
    requires ValidGraph(g) && u in g.nodes && d in g.nodes && n in Links(g, u) && u != d
    requires Level(g, r + 1, u, d, held) && Level(g, r, n, d, said)
    ensures Metric(Taken(held, said, u, n, d)) >= Min(Dist(g, u, d), r + 1)
  {
    DistStep(g, u, n, d);
    InBallIff(g, u, d, 0);
  }

  lemma TakenStaysShortest(g: Graph, r: nat, u: NodeId, n: NodeId, d: NodeId, held: Option<Entry>, said: Option<Entry>)
    requires ValidGraph(g) && u in g.nodes && d in g.nodes && n in Links(g, u)
    requires 1 <= Dist(g, u, d) <= r && Dist(g, u, d) < ROUTE_METRIC_INFINITY
    requires Shortest(g, u, d, held) && Level(g, r, n, d, said)
    ensures Shortest(g, u, d, Taken(held, said, u, n, d))
  {
    var k := Dist(g, u, d);
    DistStep(g, u, n, d);
    if n != d && Dist(g, n, d) == k - 1 {
      NextHopTellsTruth(g, r, u, n, d, said);
    }
  }

  lemma TakenForgetsSelf(g: Graph, r: nat, n: NodeId, d: NodeId, said: Option<Entry>)
    requires ValidGraph(g) && d in g.nodes && n in Links(g, d) && r >= 2 && Level(g, r, n, d, said)
    ensures Taken(None, said, d, n, d).None?
  {
    DistZero(g, n, d);
    DistZero(g, said.value.nextHop, d);
  }

  /** Applying what a neighbour one level below says leaves a route right up to its level. */
  lemma TakenKeepsLevel(g: Graph, r: nat, u: NodeId, n: NodeId, d: NodeId, held: Option<Entry>, said: Option<Entry>)
    requires ValidGraph(g) && u in g.nodes && d in g.nodes && n in Links(g, u)
    requires Level(g, r + 1, u, d, held) && Level(g, r, n, d, said)
    ensures Level(g, r + 1, u, d, Taken(held, said, u, n, d))
  {
    DistZero(g, u, d);
    if u != d {
      TakenNotTooNear(g, r, u, n, d, held, said);
    } else if r >= 2 {
      TakenForgetsSelf(g, r, n, d, said);
    }
    if 1 <= Dist(g, u, d) < ROUTE_METRIC_INFINITY && Dist(g, u, d) <= r {
      TakenStaysShortest(g, r, u, n, d, held, said);
    }
    if Dist(g, u, d) == ROUTE_METRIC_INFINITY && r + 1 >= ROUTE_METRIC_INFINITY {
      DistStep(g, u, n, d);
    }
  }

  // ---------- from nothing ----------

  /** After r rounds exactly the destinations at distance 1 to r are known, each along a shortest path. */
  ghost predicate KnownWithin(g: Graph, r: nat, u: NodeId, d: NodeId, v: Option<Entry>) {
    if 1 <= Dist(g, u, d) <= r && Dist(g, u, d) < ROUTE_METRIC_INFINITY then Shortest(g, u, d, v) else v.None?
  }

  ghost predicate HeardKnown(g: Graph, r: nat, u: NodeId, d: NodeId, column: Column) {
    forall n | n in Links(g, u) :: KnownWithin(g, r, n, d, At(column, n))
  }

  lemma NearerKnown(g: Graph, r: nat, u: NodeId, d: NodeId, column: Column, v: Option<Entry>)
    requires ValidGraph(g) && u in g.nodes && d in g.nodes && HeardKnown(g, r, u, d, column)
    requires 1 <= Dist(g, u, d) <= r + 1 && Dist(g, u, d) < ROUTE_METRIC_INFINITY && BestChoice(g, column, u, d, v)
    ensures Shortest(g, u, d, v)
  {
    var k := Dist(g, u, d);
    forall n | n in Links(g, u) && n != d
      ensures if Dist(g, n, d) < k
              then n in column && column[n].metric == Dist(g, n, d) && column[n].nextHop != u
              else Metric(At(column, n)) >= k
    {
      DistStep(g, u, n, d);
      DistZero(g, n, d);
    }
    GoodNewsGivesShortest(g, column, u, d, v);
  }

  lemma FartherUnknown(g: Graph, r: nat, u: NodeId, d: NodeId, column: Column, v: Option<Entry>)
    requires ValidGraph(g) && u in g.nodes && d in g.nodes && HeardKnown(g, r, u, d, column)
    requires !(1 <= Dist(g, u, d) <= r + 1 && Dist(g, u, d) < ROUTE_METRIC_INFINITY) && BestChoice(g, column, u, d, v)
    ensures v.None?
  {
    DistZero(g, u, d);
    forall n | n in Links(g, u) ensures OfferTo(column, n, u).None? {
      DistStep(g, u, n, d);
      DistZero(g, n, d);
      if n in column {
        DistZero(g, column[n].nextHop, d);
      }
    }
  }

  /** Knowledge spreads exactly one hop further. */
  lemma KnownUp(g: Graph, r: nat, u: NodeId, d: NodeId, column: Column, v: Option<Entry>)
    requires ValidGraph(g) && u in g.nodes && d in g.nodes
    requires HeardKnown(g, r, u, d, column) && BestChoice(g, column, u, d, v)
    ensures KnownWithin(g, r + 1, u, d, v)
  {
    if 1 <= Dist(g, u, d) <= r + 1 && Dist(g, u, d) < ROUTE_METRIC_INFINITY {
      NearerKnown(g, r, u, d, column, v);
    } else {
      FartherUnknown(g, r, u, d, column, v);
    }
  }
}
