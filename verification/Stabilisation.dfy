/** The convergence theorems for the nodes' actual tables in synchronous rounds. */
module Stabilisation {
  import opened Bytes
  import opened Arithmetic
  import opened Routing
  import opened Graph
  import opened Network
  import opened Convergence

  ghost predicate ValidRun(network: IPv6, g: Graph, t: Tables, rounds: seq<Snapshot>) {
    ValidGraph(g) && ValidTables(network, g, t) && forall s | s in rounds :: ValidSnapshot(network, g, s)
  }

  lemma {:induction false} RunKeepsValid(network: IPv6, g: Graph, t: Tables, rounds: seq<Snapshot>)
    requires ValidRun(network, g, t, rounds)
    ensures ValidTables(network, g, Run(g, t, rounds))
  {
    if rounds != [] {
      var init, last := rounds[..|rounds| - 1], rounds[|rounds| - 1];
      RunKeepsValid(network, g, t, init);
      RoundBest(network, g, Run(g, t, init), last);
    }
  }

  lemma FirstRounds(network: IPv6, g: Graph, t: Tables, rounds: seq<Snapshot>, n: nat)
    requires ValidRun(network, g, t, rounds) && n <= |rounds|
    ensures ValidRun(network, g, t, rounds[..n])
  {
  }

  /** The last round made u's route to d the best choice over what the neighbours held before it. */
  lemma LastRound(network: IPv6, g: Graph, t: Tables, rounds: seq<Snapshot>, u: NodeId, d: NodeId)
    requires ValidRun(network, g, t, rounds) && rounds != [] && u in g.nodes
    ensures var column := ColumnOf(Run(g, t, rounds[..|rounds| - 1]), d);
            BestChoice(g, column, u, d, View(TableOf(Run(g, t, rounds), u), d))
  {
    var init, last := rounds[..|rounds| - 1], rounds[|rounds| - 1];
    RunKeepsValid(network, g, t, init);
    RoundBest(network, g, Run(g, t, init), last);
    ColumnAt(Run(g, t, rounds), u, d);
  }

  /** After r rounds from arbitrary tables every route is right up to level r. */
  lemma {:induction false} RunLevel(network: IPv6, g: Graph, t: Tables, rounds: seq<Snapshot>, u: NodeId, d: NodeId)
    requires ValidRun(network, g, t, rounds) && u in g.nodes && d in g.nodes
    ensures Level(g, |rounds|, u, d, View(TableOf(Run(g, t, rounds), u), d))
    decreases |rounds|
  {
    if rounds != [] {
      var init := rounds[..|rounds| - 1];
      var column := ColumnOf(Run(g, t, init), d);
      forall n | n in Links(g, u) ensures Level(g, |init|, n, d, At(column, n)) {
        RunLevel(network, g, t, init, n, d);
        ColumnAt(Run(g, t, init), n, d);
      }
      LastRound(network, g, t, rounds, u, d);
      LevelUp(g, |init|, u, d, column, View(TableOf(Run(g, t, rounds), u), d));
    } else {
      LevelZero(g, u, d, View(TableOf(t, u), d));
    }
  }

  /** Every table holds exactly the shortest-path routes. */
  ghost predicate Converged(g: Graph, t: Tables) {
    forall u, d {:trigger View(TableOf(t, u), d)} | u in g.nodes && d in g.nodes ::
      Ideal(g, u, d, View(TableOf(t, u), d))
  }

  lemma SettledAt(network: IPv6, g: Graph, t: Tables, rounds: seq<Snapshot>, u: NodeId, d: NodeId)
    requires ValidRun(network, g, t, rounds) && |rounds| >= ROUTE_METRIC_INFINITY && u in g.nodes && d in g.nodes
    ensures Ideal(g, u, d, View(TableOf(Run(g, t, rounds), u), d))
  {
    RunLevel(network, g, t, rounds, u, d);
    LevelIsIdeal(g, |rounds|, u, d, View(TableOf(Run(g, t, rounds), u), d));
  }

  /** Self-stabilisation: from arbitrary well-formed tables, 16 rounds suffice, and the tables stay converged. */
  lemma SelfStabilisation(network: IPv6, g: Graph, t: Tables, rounds: seq<Snapshot>)
    requires ValidRun(network, g, t, rounds) && |rounds| >= ROUTE_METRIC_INFINITY
    ensures ValidTables(network, g, Run(g, t, rounds)) && Converged(g, Run(g, t, rounds))
  {
    RunKeepsValid(network, g, t, rounds);
    forall u, d | u in g.nodes && d in g.nodes ensures Ideal(g, u, d, View(TableOf(Run(g, t, rounds), u), d)) {
      SettledAt(network, g, t, rounds, u, d);
    }
  }

  /** Bounded counting to infinity, for every round, node and destination. */
  lemma MetricsNeverTooSmall(network: IPv6, g: Graph, t: Tables, rounds: seq<Snapshot>, u: NodeId, d: NodeId)
    requires ValidRun(network, g, t, rounds) && u in g.nodes && d in g.nodes && u != d
    ensures Metric(View(TableOf(Run(g, t, rounds), u), d)) >= Min(Dist(g, u, d), |rounds|)
    ensures |rounds| >= ROUTE_METRIC_INFINITY && Dist(g, u, d) == ROUTE_METRIC_INFINITY ==>
            View(TableOf(Run(g, t, rounds), u), d).None?
  {
    RunLevel(network, g, t, rounds, u, d);
    if |rounds| >= ROUTE_METRIC_INFINITY && Dist(g, u, d) == ROUTE_METRIC_INFINITY {
      SettledAt(network, g, t, rounds, u, d);
    }
  }

  /** A destination k hops away is routed along a shortest path from round k + 1 on, whatever the tables held at first.
      */
  lemma NearDestinationsSettle(network: IPv6, g: Graph, t: Tables, rounds: seq<Snapshot>, u: NodeId, d: NodeId)
    requires ValidRun(network, g, t, rounds) && u in g.nodes && d in g.nodes
    requires 1 <= Dist(g, u, d) < ROUTE_METRIC_INFINITY && Dist(g, u, d) < |rounds|
    ensures Shortest(g, u, d, View(TableOf(Run(g, t, rounds), u), d))
  {
    RunLevel(network, g, t, rounds, u, d);
  }

  /** Nothing filters routes to oneself, but from the third round on there are none. */
  lemma NoRouteToSelf(network: IPv6, g: Graph, t: Tables, rounds: seq<Snapshot>, u: NodeId)
    requires ValidRun(network, g, t, rounds) && u in g.nodes && |rounds| >= 3
    ensures View(TableOf(Run(g, t, rounds), u), u).None?
  {
    RunLevel(network, g, t, rounds, u, u);
  }

  /** Exact convergence from empty tables: round r knows exactly the destinations up to r hops away. */
  lemma {:induction false} ExactFromEmpty(network: IPv6, g: Graph, t: Tables, rounds: seq<Snapshot>, u: NodeId,
                                          d: NodeId)
    requires ValidRun(network, g, t, rounds) && u in g.nodes && d in g.nodes
    requires forall x | x in t :: t[x] == []
    ensures KnownWithin(g, |rounds|, u, d, View(TableOf(Run(g, t, rounds), u), d))
    decreases |rounds|
  {
    if rounds != [] {
      var init := rounds[..|rounds| - 1];
      var column := ColumnOf(Run(g, t, init), d);
      forall n | n in Links(g, u) ensures KnownWithin(g, |init|, n, d, At(column, n)) {
        ExactFromEmpty(network, g, t, init, n, d);
        ColumnAt(Run(g, t, init), n, d);
      }
      LastRound(network, g, t, rounds, u, d);
      KnownUp(g, |init|, u, d, column, View(TableOf(Run(g, t, rounds), u), d));
    }
  }
}
