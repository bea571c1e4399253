/** Daemons that start, run and start again (daemon_start in src/core/daemon.cpp), each time under a greater
    generation. */
module Restarts {
  import opened Bytes
  import opened Routing
  import opened DistanceVector
  import opened Rebuild
  import opened Daemon
  import opened Graph
  import opened Stabilisation
  import opened Asynchronous
  import opened Epochs
  import opened Schedules

  /** A daemon that has just started: nothing in its table or on file, a rebuild due. */
  function Fresh(generation: uint64): Node {
    Node(EMPTY_STATE, Version(generation, 1), true)
  }

  /** Every daemon has just started, each under its own generation. */
  function FreshWorld(generations: map<NodeId, uint64>): World {
    World(map u | u in generations :: Fresh(generations[u]), {})
  }

  lemma FreshWorldIsConsistent(network: IPv6, g: Graph, generations: map<NodeId, uint64>)
    requires ValidGraph(g) && generations.Keys == g.nodes
    ensures Consistent(network, g, FreshWorld(generations))
  {
    assert Nodes([]) == {} && Mentioned(map[]) == {};
  }

  // ---------- restarts ----------

  /** u loses everything it knew; what it sent before may still arrive anywhere, and what was sent to it may too. */
  function Restarted(w: World, u: NodeId, generation: uint64): World {
    w.(nodes := w.nodes[u := Fresh(generation)])
  }

  lemma RestartKeepsFile(w: World, u: NodeId, generation: uint64, x: NodeId, n: NodeId)
    requires GoodFile(w, x, n) && VersionAt(w, u).generation < generation
    ensures GoodFile(Restarted(w, u, generation), x, n)
  {
  }

  lemma RestartKeepsMessage(network: IPv6, g: Graph, w: World, u: NodeId, generation: uint64, m: Message)
    requires GoodMessage(network, g, w, m) && VersionAt(w, u).generation < generation
    ensures GoodMessage(network, g, Restarted(w, u, generation), m)
  {
  }

  /** A restart under a greater generation keeps the world consistent. */
  lemma RestartKeeps(network: IPv6, g: Graph, w: World, u: NodeId, generation: uint64)
    requires Consistent(network, g, w) && u in g.nodes && VersionAt(w, u).generation < generation
    ensures Consistent(network, g, Restarted(w, u, generation))
  {
    var w' := Restarted(w, u, generation);
    assert Nodes([]) == {} && Mentioned(map[]) == {};
    forall x | x in g.nodes ensures GoodNode(network, g, x, NodeOf(w', x)) {
      assert GoodNode(network, g, x, NodeOf(w, x));
    }
    forall x, n | x in g.nodes && n in Links(g, x) ensures GoodFile(w', x, n) {
      assert GoodFile(w, x, n);
      RestartKeepsFile(w, u, generation, x, n);
    }
    forall m | m in w'.sent ensures GoodMessage(network, g, w', m) {
      assert GoodMessage(network, g, w, m);
      RestartKeepsMessage(network, g, w, u, generation, m);
    }
  }

  // ---------- whole histories ----------

  datatype Incident = Happens(event: Event) | Restart(node: NodeId, generation: uint64)

  ghost function AfterIncident(network: IPv6, w: World, i: Incident): World {
    match i
    case Happens(e) => Step(network, w, e)
    case Restart(u, generation) => Restarted(w, u, generation)
  }

  /** Identity.GenerationsIncrease is the reason why the generation of a restart is greater. */
  ghost predicate ValidIncident(network: IPv6, g: Graph, w: World, i: Incident) {
    match i
    case Happens(e) => ValidEvent(network, g, w, e)
    case Restart(u, generation) => u in g.nodes && VersionAt(w, u).generation < generation
  }

  ghost function AfterHistory(network: IPv6, w: World, h: seq<Incident>): World {
    if h == [] then w else AfterIncident(network, AfterHistory(network, w, h[..|h| - 1]), h[|h| - 1])
  }

  ghost predicate ValidHistory(network: IPv6, g: Graph, w: World, h: seq<Incident>) {
    h == [] || (&& ValidHistory(network, g, w, h[..|h| - 1])
                && ValidIncident(network, g, AfterHistory(network, w, h[..|h| - 1]), h[|h| - 1]))
  }

  /** Every history of sending, delivering, rebuilding and restarting keeps the world consistent. */
  lemma {:induction false} HistoryKeeps(network: IPv6, g: Graph, w: World, h: seq<Incident>)
    requires Consistent(network, g, w) && ValidHistory(network, g, w, h)
    ensures Consistent(network, g, AfterHistory(network, w, h))
  {
    if h != [] {
      var w' := AfterHistory(network, w, h[..|h| - 1]);
      HistoryKeeps(network, g, w, h[..|h| - 1]);
      match h[|h| - 1]
      case Happens(e) => StepKeeps(network, g, w', e);
      case Restart(u, generation) => RestartKeeps(network, g, w', u, generation);
    }
  }

  /** From the first start on, through any history with any number of restarts: 16 epochs after the last of them every
      table holds exactly the shortest-path routes, at every moment. */
  lemma RestartsAreForgotten(network: IPv6, g: Graph, generations: map<NodeId, uint64>, h: seq<Incident>,
                             epochs: seq<seq<Event>>, later: seq<Event>)
    requires ValidGraph(g) && generations.Keys == g.nodes && ValidHistory(network, g, FreshWorld(generations), h)
    requires EpochRun(network, g, AfterHistory(network, FreshWorld(generations), h), epochs)
    requires |epochs| >= ROUTE_METRIC_INFINITY
    requires var w := AfterHistory(network, FreshWorld(generations), h);
             ValidEvents(network, g, AfterEpochs(network, w, epochs), later)
    ensures var w := AfterHistory(network, FreshWorld(generations), h);
            Converged(g, TablesOf(After(network, AfterEpochs(network, w, epochs), later)))
  {
    FreshWorldIsConsistent(network, g, generations);
    HistoryKeeps(network, g, FreshWorld(generations), h);
    AsynchronousStabilisation(network, g, AfterHistory(network, FreshWorld(generations), h), epochs, later);
  }

  /** And that can happen: whatever the history, as long as sequence numbers last there are events after which the
      tables are converged. */
  lemma HistoryCanConverge(network: IPv6, g: Graph, generations: map<NodeId, uint64>, h: seq<Incident>)
      returns (epochs: seq<seq<Event>>)
    requires ValidGraph(g) && generations.Keys == g.nodes && ValidHistory(network, g, FreshWorld(generations), h)
    requires Room(g, AfterHistory(network, FreshWorld(generations), h), STAMPS * ROUTE_METRIC_INFINITY)
    ensures var w := AfterHistory(network, FreshWorld(generations), h);
            && EpochRun(network, g, w, epochs) && |epochs| == ROUTE_METRIC_INFINITY
            && Converged(g, TablesOf(AfterEpochs(network, w, epochs)))
  {
    var w := AfterHistory(network, FreshWorld(generations), h);
    FreshWorldIsConsistent(network, g, generations);
    HistoryKeeps(network, g, FreshWorld(generations), h);
    epochs := EpochRunExists(network, g, w, ROUTE_METRIC_INFINITY);
    AsynchronousStabilisation(network, g, w, epochs, []);
  }

  /** Daemons that have just started always have room for it. */
  lemma FreshStartConverges(network: IPv6, g: Graph, generations: map<NodeId, uint64>)
      returns (epochs: seq<seq<Event>>)
    requires ValidGraph(g) && generations.Keys == g.nodes
    ensures EpochRun(network, g, FreshWorld(generations), epochs) && |epochs| == ROUTE_METRIC_INFINITY
    ensures Converged(g, TablesOf(AfterEpochs(network, FreshWorld(generations), epochs)))
  {
    epochs := HistoryCanConverge(network, g, generations, []);
  }
}
