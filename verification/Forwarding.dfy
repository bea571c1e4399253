/** The forwarding engine of one node (src/network/forwarding.cpp) and the per-packet snapshot it runs on
    (forward_data_packet in src/core/daemon.cpp). */
module Forwarding {
  import opened Bytes
  import opened Routing

  datatype DataPacket = DataPacket(kind: byte, source: NodeId, destination: NodeId, packetId: uint64, ttl: byte,
                                   requiresAck: bool, sequence: uint32, payload: seq<byte>)

  datatype ForwardAction = DeliverLocally | ForwardToPeer | DropNoRoute | DropInvalid | DropTtlExpired

  datatype ForwardingMetrics = ForwardingMetrics(forwarded: uint64, dropped: uint64, ttlExpired: uint64,
                                                 unknownDestination: uint64)

  /** What one call does to the packet and where it sends it; a peer is named only when there is one. */
  datatype Decision = Decision(action: ForwardAction, packet: DataPacket, nextHop: Option<NodeId>)

  function Decide(localId: Option<NodeId>, routes: seq<Route>, packet: DataPacket, decrementTtl: bool): Decision {
    if localId == Some(packet.destination) then Decision(DeliverLocally, packet, None)
    else if decrementTtl && packet.ttl <= 1 then Decision(DropTtlExpired, packet.(ttl := 0), None)
    else
      var sent := if decrementTtl then packet.(ttl := packet.ttl - 1) else packet;
      var route := RoutingLookup(routes, packet.destination);
      if route.None? || !route.value.valid then Decision(DropNoRoute, sent, None)
      else Decision(ForwardToPeer, sent, Some(route.value.nextHop))
  }

  const COUNTER_RANGE: int := 0x1_0000_0000_0000_0000

  /** uint64 counters wrap. */
  function Increment(x: uint64): uint64 {
    (x + 1) % COUNTER_RANGE
  }

  /** What really happened, in numbers that do not wrap. */
  datatype Totals = Totals(calls: nat, forwarded: nat, delivered: nat, ttlExpired: nat, unknownDestination: nat)

  function Counted(totals: Totals, action: ForwardAction): Totals {
    var t := totals.(calls := totals.calls + 1);
    match action
    case DeliverLocally => t.(delivered := t.delivered + 1)
    case ForwardToPeer => t.(forwarded := t.forwarded + 1)
    case DropTtlExpired => t.(ttlExpired := t.ttlExpired + 1)
    case DropNoRoute => t.(unknownDestination := t.unknownDestination + 1)
    case DropInvalid => t
  }

  lemma IncrementWraps(n: nat)
    ensures Increment(n % COUNTER_RANGE) == (n + 1) % COUNTER_RANGE
  {
  }

  /** Every call has one outcome, every drop one cause, and the counters are the totals modulo their width. */
  ghost predicate Balance(metrics: ForwardingMetrics, totals: Totals) {
    && totals.calls == totals.forwarded + totals.delivered + totals.ttlExpired + totals.unknownDestination
    && metrics.forwarded == totals.forwarded % COUNTER_RANGE
    && metrics.ttlExpired == totals.ttlExpired % COUNTER_RANGE
    && metrics.unknownDestination == totals.unknownDestination % COUNTER_RANGE
    && metrics.dropped == (totals.ttlExpired + totals.unknownDestination) % COUNTER_RANGE
  }

  lemma BalanceKept(m: ForwardingMetrics, t: Totals)
    requires Balance(m, t)
    ensures Balance(m, Counted(t, DeliverLocally))
    ensures Balance(m.(forwarded := Increment(m.forwarded)), Counted(t, ForwardToPeer))
    ensures Balance(m.(ttlExpired := Increment(m.ttlExpired), dropped := Increment(m.dropped)),
                    Counted(t, DropTtlExpired))
    ensures Balance(m.(unknownDestination := Increment(m.unknownDestination), dropped := Increment(m.dropped)),
                    Counted(t, DropNoRoute))
  {
    IncrementWraps(t.forwarded);
    IncrementWraps(t.ttlExpired);
    IncrementWraps(t.unknownDestination);
    IncrementWraps(t.ttlExpired + t.unknownDestination);
  }

  /** How often an action occurs. */
  function Occurrences(actions: seq<ForwardAction>, action: ForwardAction): nat {
    if actions == [] then 0
    else Occurrences(actions[..|actions| - 1], action) + if actions[|actions| - 1] == action then 1 else 0
  }

  function TotalsAfter(actions: seq<ForwardAction>): Totals {
    if actions == [] then Totals(0, 0, 0, 0, 0)
    else Counted(TotalsAfter(actions[..|actions| - 1]), actions[|actions| - 1])
  }

  /** After any calls the counters say, modulo their width, how many packets were forwarded, expired, had no route, and
      were dropped for either reason. */
  lemma CountersCount(actions: seq<ForwardAction>, metrics: ForwardingMetrics)
    requires DropInvalid !in actions && Balance(metrics, TotalsAfter(actions))
    ensures TotalsAfter(actions).delivered == Occurrences(actions, DeliverLocally)
    ensures metrics.forwarded == Occurrences(actions, ForwardToPeer) % 0x1_0000_0000_0000_0000
    ensures metrics.ttlExpired == Occurrences(actions, DropTtlExpired) % 0x1_0000_0000_0000_0000
    ensures metrics.unknownDestination == Occurrences(actions, DropNoRoute) % 0x1_0000_0000_0000_0000
    ensures metrics.dropped
            == (Occurrences(actions, DropTtlExpired) + Occurrences(actions, DropNoRoute)) % 0x1_0000_0000_0000_0000
  {
    TotalsCount(actions);
  }

  lemma {:induction false} TotalsCount(actions: seq<ForwardAction>)
    requires DropInvalid !in actions
    ensures TotalsAfter(actions) == Totals(|actions|, Occurrences(actions, ForwardToPeer),
                                           Occurrences(actions, DeliverLocally), Occurrences(actions, DropTtlExpired),
                                           Occurrences(actions, DropNoRoute))
  {
    if actions != [] {
      TotalsCount(actions[..|actions| - 1]);
    }
  }

  class ForwardingState {
    const table: RouteTable
    const localId: Option<NodeId>
    var metrics: ForwardingMetrics
    var lastAction: ForwardAction
    var lastNextHop: NodeId
    ghost var totals: Totals

    constructor (table: RouteTable, localId: Option<NodeId>)
      ensures this.table == table && this.localId == localId && Balanced() && totals == Totals(0, 0, 0, 0, 0)
      ensures lastAction == DropInvalid && lastNextHop == EMPTY_NODE_ID
    {
      this.table, this.localId := table, localId;
      metrics, lastAction, lastNextHop := ForwardingMetrics(0, 0, 0, 0), DropInvalid, EMPTY_NODE_ID;
      totals := Totals(0, 0, 0, 0, 0);
    }

    ghost predicate Balanced()
      reads this
    {
      Balance(metrics, totals)
    }

    /** forward_impl; the caller's packet comes back with its new TTL. */
    method Forward(packet: DataPacket, decrementTtl: bool) returns (sent: DataPacket)
      requires Balanced()
      modifies this
      ensures Balanced() && totals == Counted(old(totals), lastAction)
      ensures lastAction == Decide(localId, table.routes, packet, decrementTtl).action
      ensures sent == Decide(localId, table.routes, packet, decrementTtl).packet
      ensures lastNextHop == match Decide(localId, table.routes, packet, decrementTtl).nextHop
                             case Some(n) => n
                             case None => if lastAction == DropTtlExpired then old(lastNextHop) else EMPTY_NODE_ID
    {
      sent := packet;
      BalanceKept(metrics, totals);
      if localId == Some(packet.destination) {
        lastAction, lastNextHop := DeliverLocally, EMPTY_NODE_ID;
        totals := Counted(totals, lastAction);
        return;
      }
      if decrementTtl && packet.ttl <= 1 {
        sent := packet.(ttl := 0);
        metrics := metrics.(ttlExpired := Increment(metrics.ttlExpired), dropped := Increment(metrics.dropped));
        lastAction := DropTtlExpired;
        totals := Counted(totals, lastAction);
        return;
      }
      if decrementTtl {
        sent := packet.(ttl := packet.ttl - 1);
      }
      var route := table.Lookup(packet.destination);
      if route.None? || !route.value.valid || route.value.metric >= ROUTE_METRIC_INFINITY {
        metrics := metrics.(unknownDestination := Increment(metrics.unknownDestination),
                            dropped := Increment(metrics.dropped));
        lastAction, lastNextHop := DropNoRoute, EMPTY_NODE_ID;
        totals := Counted(totals, lastAction);
        return;
      }
      lastAction, lastNextHop := ForwardToPeer, route.value.nextHop;
      metrics := metrics.(forwarded := Increment(metrics.forwarded));
      totals := Counted(totals, lastAction);
    }
  }

  /** forward_data_packet copies at most the one route that matters. */
  function PacketSnapshot(routes: seq<Route>, localId: NodeId, destination: NodeId): seq<Route> {
    var i := IndexOf(routes, destination);
    if destination != localId && i < |routes| then [routes[i]] else []
  }

  /** Deciding on the snapshot is deciding on the whole table. */
  lemma SnapshotSuffices(routes: seq<Route>, localId: NodeId, packet: DataPacket, decrementTtl: bool)
    ensures Decide(Some(localId), PacketSnapshot(routes, localId, packet.destination), packet, decrementTtl)
         == Decide(Some(localId), routes, packet, decrementTtl)
  {
    var i := IndexOf(routes, packet.destination);
    if i < |routes| {
      IndexOfIs([routes[i]], packet.destination, 0);
    }
  }
}
