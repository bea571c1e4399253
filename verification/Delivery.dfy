/** Packets travelling from node to node: forwarding_forward_origin at the source, forwarding_forward afterwards. */
module Delivery {
  import opened Bytes
  import opened Routing
  import opened Graph
  import opened Network
  import opened Convergence
  import opened Stabilisation
  import opened Forwarding
  import Asynchronous
  import Epochs

  /** How a journey ends: at a node, with the packet as it is then. */
  datatype Fate = Delivered | TtlExpired | NoRoute | NextHopUnavailable

  /** hops lists the receivers of the transmissions that took place. */
  datatype Journey = Journey(fate: Fate, at: NodeId, packet: DataPacket, hops: seq<NodeId>)

  /** The tables at the moments at which a packet is handled, one moment for each hop; those of the last moment remain.
      */
  type Moments = s: seq<Tables> | s != [] witness [map[]]

  function Later(moments: Moments): Moments {
    if |moments| == 1 then moments else moments[1..]
  }

  /** A transmission needs a session with the next hop (find_session_by_next_hop). */
  function Travel(g: Graph, moments: Moments, at: NodeId, packet: DataPacket, origin: bool): Journey
    decreases packet.ttl, if origin then 1 else 0
  {
    var decision := Decide(Some(at), TableOf(moments[0], at), packet, !origin);
    match decision.action
    case DeliverLocally => Journey(Delivered, at, decision.packet, [])
    case DropTtlExpired => Journey(TtlExpired, at, decision.packet, [])
    case ForwardToPeer =>
      var n := decision.nextHop.value;
      if n !in Links(g, at) then Journey(NextHopUnavailable, at, decision.packet, [])
      else
        var rest := Travel(g, Later(moments), n, decision.packet, false);
        rest.(hops := [n] + rest.hops)
    case _ => Journey(NoRoute, at, decision.packet, [])
  }

  /** At most max(1, ttl) transmissions from the source; one from the TTL for every node that sent the packet on or
      tried to, except the source, none left when it expires, and nothing else changed; delivered exactly at the
      destination. */
  ghost predicate Accountable(j: Journey, at: NodeId, packet: DataPacket, origin: bool) {
    && |j.hops| <= (if packet.ttl == 0 then (if origin then 1 else 0)
                    else if origin then packet.ttl else packet.ttl - 1)
    && j.packet.(ttl := packet.ttl) == packet
    && j.at == (if j.hops == [] then at else j.hops[|j.hops| - 1])
    && (j.fate == Delivered <==> j.at == packet.destination)
    && (j.fate == Delivered ==>
          j.packet.ttl == packet.ttl - if origin && j.hops != [] then |j.hops| - 1 else |j.hops|)
    && (j.fate == TtlExpired ==> j.packet.ttl == 0)
    && (j.fate == NoRoute || j.fate == NextHopUnavailable ==>
          j.packet.ttl == packet.ttl - if origin then |j.hops| else |j.hops| + 1)
  }

  /** The TTL bounds every journey, loops included and however the tables change meanwhile, and nothing but the TTL
      changes on the way. */
  lemma {:induction false} TransmissionsBounded(g: Graph, moments: Moments, at: NodeId, packet: DataPacket,
                                                origin: bool)
    ensures Accountable(Travel(g, moments, at, packet, origin), at, packet, origin)
    decreases packet.ttl, if origin then 1 else 0
  {
    var decision := Decide(Some(at), TableOf(moments[0], at), packet, !origin);
    if decision.action == ForwardToPeer && decision.nextHop.value in Links(g, at) {
      var n := decision.nextHop.value;
      TransmissionsBounded(g, Later(moments), n, decision.packet, false);
      OneHopMore(Travel(g, Later(moments), n, decision.packet, false), at, n, packet, decision.packet, origin);
    }
  }

  lemma OneHopMore(rest: Journey, at: NodeId, n: NodeId, packet: DataPacket, sent: DataPacket, origin: bool)
    requires Accountable(rest, n, sent, false) && packet.destination != at
    requires sent == (if origin then packet else packet.(ttl := sent.ttl))
    requires origin || (packet.ttl > 1 && sent.ttl == packet.ttl - 1)
    ensures Accountable(rest.(hops := [n] + rest.hops), at, packet, origin)
  {
  }

  /** Whatever the tables say and become, a packet walks along links. */
  lemma {:induction false} JourneyIsWalk(g: Graph, moments: Moments, at: NodeId, packet: DataPacket, origin: bool)
    requires ValidGraph(g) && at in g.nodes
    ensures var j := Travel(g, moments, at, packet, origin); IsPath(g, [at] + j.hops, at, j.at)
    decreases packet.ttl, if origin then 1 else 0
  {
    var decision := Decide(Some(at), TableOf(moments[0], at), packet, !origin);
    if decision.action == ForwardToPeer && decision.nextHop.value in Links(g, at) {
      var n := decision.nextHop.value;
      var rest := Travel(g, Later(moments), n, decision.packet, false);
      JourneyIsWalk(g, Later(moments), n, decision.packet, false);
      PathExtends(g, at, n, rest.hops, rest.at);
    }
  }

  lemma PathExtends(g: Graph, u: NodeId, n: NodeId, hops: seq<NodeId>, d: NodeId)
    requires u in g.nodes && n in Links(g, u) && IsPath(g, [n] + hops, n, d)
    ensures IsPath(g, [u] + ([n] + hops), u, d)
  {
    var p, q := [n] + hops, [u] + ([n] + hops);
    forall i | 0 <= i < |q| - 1 ensures q[i + 1] in Links(g, q[i]) {
      if i > 0 {
        assert q[i] == p[i - 1] && q[i + 1] == p[i - 1 + 1];
      }
    }
    forall x | x in q ensures x in g.nodes {
      assert x == u || x in p;
    }
  }

  // ---------- on converged tables ----------

  /** The tables may change on the way, but they are converged at every moment. */
  ghost predicate AllConverged(g: Graph, moments: Moments) {
    forall t | t in moments :: Converged(g, t)
  }

  lemma LaterConverged(g: Graph, moments: Moments)
    requires AllConverged(g, moments)
    ensures Converged(g, moments[0]) && AllConverged(g, Later(moments))
  {
    assert moments[0] in moments;
  }

  lemma {:induction false} OnwardDelivery(g: Graph, moments: Moments, at: NodeId, packet: DataPacket)
    requires ValidGraph(g) && AllConverged(g, moments) && at in g.nodes && packet.destination in g.nodes
    requires Dist(g, at, packet.destination) < ROUTE_METRIC_INFINITY
    ensures var j, k := Travel(g, moments, at, packet, false), Dist(g, at, packet.destination);
            if k == 0 || k < packet.ttl then j.fate == Delivered && |j.hops| == k else j.fate == TtlExpired
    decreases packet.ttl
  {
    var d, k := packet.destination, Dist(g, at, packet.destination);
    DistZero(g, at, d);
    if k > 0 && packet.ttl > 1 {
      LaterConverged(g, moments);
      var n := ForwardsNearer(g, moments[0], at, packet, false);
      var sent := packet.(ttl := packet.ttl - 1);
      OnwardDelivery(g, Later(moments), n, sent);
      assert Travel(g, moments, at, packet, false).fate == Travel(g, Later(moments), n, sent, false).fate;
    }
  }

  /** A converged node hands a live packet to a neighbour one hop nearer. */
  lemma ForwardsNearer(g: Graph, t: Tables, at: NodeId, packet: DataPacket, origin: bool) returns (n: NodeId)
    requires ValidGraph(g) && Converged(g, t) && at in g.nodes && packet.destination in g.nodes
    requires 1 <= Dist(g, at, packet.destination) < ROUTE_METRIC_INFINITY && (origin || packet.ttl > 1)
    ensures n in Links(g, at) && n in g.nodes && Dist(g, n, packet.destination) == Dist(g, at, packet.destination) - 1
    ensures Decide(Some(at), TableOf(t, at), packet, !origin)
         == Decision(ForwardToPeer, if origin then packet else packet.(ttl := packet.ttl - 1), Some(n))
  {
    DistZero(g, at, packet.destination);
    assert Ideal(g, at, packet.destination, View(TableOf(t, at), packet.destination));
    n := View(TableOf(t, at), packet.destination).value.nextHop;
  }

  /** End to end: a packet for a destination k hops away takes a shortest path and arrives exactly if k is at most
      max(1, ttl); at the source it is dropped exactly if there is no path. */
  lemma EndToEnd(g: Graph, moments: Moments, u: NodeId, packet: DataPacket)
    requires ValidGraph(g) && AllConverged(g, moments) && u in g.nodes && packet.destination in g.nodes
    ensures var j, k := Travel(g, moments, u, packet, true), Dist(g, u, packet.destination);
            if k == ROUTE_METRIC_INFINITY then j == Journey(NoRoute, u, packet, [])
            else if k <= 1 || k <= packet.ttl
            then j.fate == Delivered && |j.hops| == k && j.packet.(ttl := packet.ttl) == packet
                 && j.packet.ttl == packet.ttl - (if k == 0 then 0 else k - 1)
                 && IsPath(g, [u] + j.hops, u, packet.destination)
            else j.fate == TtlExpired
  {
    var d, k := packet.destination, Dist(g, u, packet.destination);
    DistZero(g, u, d);
    InBallIff(g, u, d, 0);
    TransmissionsBounded(g, moments, u, packet, true);
    JourneyIsWalk(g, moments, u, packet, true);
    if 0 < k < ROUTE_METRIC_INFINITY {
      SourceDelivery(g, moments, u, packet);
    } else if k == ROUTE_METRIC_INFINITY {
      LaterConverged(g, moments);
      assert Ideal(g, u, d, View(TableOf(moments[0], u), d));
    }
  }

  lemma SourceDelivery(g: Graph, moments: Moments, u: NodeId, packet: DataPacket)
    requires ValidGraph(g) && AllConverged(g, moments) && u in g.nodes && packet.destination in g.nodes
    requires 0 < Dist(g, u, packet.destination) < ROUTE_METRIC_INFINITY
    ensures var j, k := Travel(g, moments, u, packet, true), Dist(g, u, packet.destination);
            if k <= 1 || k <= packet.ttl then j.fate == Delivered && |j.hops| == k else j.fate == TtlExpired
  {
    LaterConverged(g, moments);
    var n := ForwardsNearer(g, moments[0], u, packet, true);
    OnwardDelivery(g, Later(moments), n, packet);
  }

  /** The packet arrives after as many transmissions as there are hops, with one from the TTL for every relay. */
  ghost predicate Arrives(g: Graph, moments: Moments, u: NodeId, packet: DataPacket) {
    var j, k := Travel(g, moments, u, packet, true), Dist(g, u, packet.destination);
    && j.fate == Delivered && j.at == packet.destination && |j.hops| == k
    && j.packet.(ttl := packet.ttl) == packet && j.packet.ttl == packet.ttl - (if k == 0 then 0 else k - 1)
  }

  ghost predicate Reachable(g: Graph, u: NodeId, d: NodeId) {
    u in g.nodes && d in g.nodes && exists p :: IsPath(g, p, u, d)
  }

  /** With the TTL of 64 the daemon uses, every reachable destination gets its packets. */
  lemma ReachableGetsPackets(g: Graph, moments: Moments, u: NodeId, packet: DataPacket)
    requires ValidGraph(g) && AllConverged(g, moments) && packet.ttl == 64
    requires Reachable(g, u, packet.destination)
    ensures Arrives(g, moments, u, packet)
  {
    HopDistance(g, u, packet.destination);
    EndToEnd(g, moments, u, packet);
    TransmissionsBounded(g, moments, u, packet, true);
  }

  // ---------- on settled networks ----------

  /** The tables after so many of the rounds, number by number. */
  ghost function AfterRounds(g: Graph, t: Tables, rounds: seq<Snapshot>, numbers: seq<nat>): (moments: seq<Tables>)
    requires forall n | n in numbers :: n <= |rounds|
    ensures |moments| == |numbers|
  {
    seq(|numbers|, i requires 0 <= i < |numbers| => assert numbers[i] in numbers; Run(g, t, rounds[..numbers[i]]))
  }

  /** Once the network has settled, packets arrive, whatever further rounds take place while they are on their way. */
  lemma SettledNetworkDelivers(network: IPv6, g: Graph, t: Tables, rounds: seq<Snapshot>, numbers: seq<nat>,
                               u: NodeId, packet: DataPacket)
    requires ValidRun(network, g, t, rounds) && numbers != []
    requires forall n | n in numbers :: ROUTE_METRIC_INFINITY <= n <= |rounds|
    requires packet.ttl == 64 && Reachable(g, u, packet.destination)
    ensures Arrives(g, AfterRounds(g, t, rounds, numbers), u, packet)
  {
    var moments := AfterRounds(g, t, rounds, numbers);
    forall m | m in moments ensures Converged(g, m) {
      var i :| 0 <= i < |moments| && moments[i] == m;
      assert numbers[i] in numbers;
      FirstRounds(network, g, t, rounds, numbers[i]);
      SelfStabilisation(network, g, t, rounds[..numbers[i]]);
    }
    ReachableGetsPackets(g, moments, u, packet);
  }

  /** The tables after so many of the events, number by number. */
  ghost function AfterEvents(network: IPv6, w: Asynchronous.World, es: seq<Asynchronous.Event>, numbers: seq<nat>)
      : (moments: seq<Tables>)
    requires forall n | n in numbers :: n <= |es|
    ensures |moments| == |numbers|
  {
    seq(|numbers|, i requires 0 <= i < |numbers| =>
      assert numbers[i] in numbers; Epochs.TablesOf(Asynchronous.After(network, w, es[..numbers[i]])))
  }

  lemma SettledAtEvery(network: IPv6, g: Graph, w: Asynchronous.World, epochs: seq<seq<Asynchronous.Event>>,
                       later: seq<Asynchronous.Event>, n: nat)
    requires Asynchronous.Consistent(network, g, w) && Epochs.EpochRun(network, g, w, epochs)
    requires Asynchronous.ValidEvents(network, g, Epochs.AfterEpochs(network, w, epochs), later)
    requires |epochs| >= ROUTE_METRIC_INFINITY && n <= |later|
    ensures Converged(g, Epochs.TablesOf(Asynchronous.After(network, Epochs.AfterEpochs(network, w, epochs),
                                                            later[..n])))
  {
    Epochs.ValidPrefix(network, g, Epochs.AfterEpochs(network, w, epochs), later, n);
    Epochs.AsynchronousStabilisation(network, g, w, epochs, later[..n]);
  }

  /** At every moment while the events take place. */
  ghost predicate ConvergedThroughout(network: IPv6, g: Graph, w: Asynchronous.World, es: seq<Asynchronous.Event>) {
    forall n | 0 <= n <= |es| :: Converged(g, Epochs.TablesOf(Asynchronous.After(network, w, es[..n])))
  }

  lemma SettledThroughout(network: IPv6, g: Graph, w: Asynchronous.World, epochs: seq<seq<Asynchronous.Event>>,
                          later: seq<Asynchronous.Event>)
    requires Asynchronous.Consistent(network, g, w) && Epochs.EpochRun(network, g, w, epochs)
    requires Asynchronous.ValidEvents(network, g, Epochs.AfterEpochs(network, w, epochs), later)
    requires |epochs| >= ROUTE_METRIC_INFINITY
    ensures ConvergedThroughout(network, g, Epochs.AfterEpochs(network, w, epochs), later)
  {
    var w' := Epochs.AfterEpochs(network, w, epochs);
    forall n | 0 <= n <= |later| ensures Converged(g, Epochs.TablesOf(Asynchronous.After(network, w', later[..n]))) {
      SettledAtEvery(network, g, w, epochs, later, n);
    }
  }

  lemma AfterEventsConverged(network: IPv6, g: Graph, w: Asynchronous.World, es: seq<Asynchronous.Event>,
                             numbers: seq<nat>)
    requires numbers != [] && (forall n | n in numbers :: n <= |es|) && ConvergedThroughout(network, g, w, es)
    ensures AllConverged(g, AfterEvents(network, w, es, numbers))
  {
    var moments := AfterEvents(network, w, es, numbers);
    forall i | 0 <= i < |moments| ensures Converged(g, moments[i]) {
      assert numbers[i] in numbers;
    }
  }

  /** The same without rounds: once every node has got through to its neighbours sixteen times, whatever happens while
      the packet is on its way. */
  lemma SettledWorldDelivers(network: IPv6, g: Graph, w: Asynchronous.World, epochs: seq<seq<Asynchronous.Event>>,
                             later: seq<Asynchronous.Event>, numbers: seq<nat>, u: NodeId, packet: DataPacket)
    requires Asynchronous.Consistent(network, g, w) && Epochs.EpochRun(network, g, w, epochs)
    requires Asynchronous.ValidEvents(network, g, Epochs.AfterEpochs(network, w, epochs), later)
    requires |epochs| >= ROUTE_METRIC_INFINITY && numbers != [] && forall n | n in numbers :: n <= |later|
    requires packet.ttl == 64 && Reachable(g, u, packet.destination)
    ensures Arrives(g, AfterEvents(network, Epochs.AfterEpochs(network, w, epochs), later, numbers), u, packet)
  {
    var w' := Epochs.AfterEpochs(network, w, epochs);
    SettledThroughout(network, g, w, epochs, later);
    AfterEventsConverged(network, g, w', later, numbers);
    ReachableGetsPackets(g, AfterEvents(network, w', later, numbers), u, packet);
  }
}
