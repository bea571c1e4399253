/** All nodes together: synchronous rounds of poison-reversed advertising, storing and rebuilding on a static graph
    (the advertisement step of routing_loop and rebuild_routing_table in src/core/daemon.cpp). */
module Network {
  import opened Bytes
  import opened Routing
  import opened DistanceVector
  import opened Rebuild
  import opened Graph

  /** What a round reads besides the tables: every node's peer list and the clock. */
  datatype Snapshot = Snapshot(peers: map<NodeId, seq<Peer>>, now: uint64)

  type Tables = map<NodeId, seq<Route>>

  function PeersOf(s: Snapshot, u: NodeId): seq<Peer> {
    if u in s.peers then s.peers[u] else []
  }

  function TableOf(t: Tables, u: NodeId): seq<Route> {
    if u in t then t[u] else []
  }

  /** The peer lists present exactly the graph's links as Connected and alive, in any order. */
  ghost predicate ValidSnapshot(network: IPv6, g: Graph, s: Snapshot) {
    forall u {:trigger PeersOf(s, u)} | u in g.nodes ::
      && ValidPeers(network, PeersOf(s, u))
      && ConnectedIds(PeersOf(s, u)) == Links(g, u)
      && LiveIds(PeersOf(s, u), s.now) == Links(g, u)
  }

  /** Well-formed tables over the nodes of the graph; any metrics up to infinity and any next hops. */
  ghost predicate ValidTables(network: IPv6, g: Graph, t: Tables) {
    forall u {:trigger TableOf(t, u)} | u in g.nodes :: Sound(network, TableOf(t, u)) && Nodes(TableOf(t, u)) <= g.nodes
  }

  /** The wire format carries neither next hops nor timestamps (serialize_route_advertisement). */
  function OnWire(routes: seq<Route>): seq<Route> {
    seq(|routes|, i requires 0 <= i < |routes| => routes[i].(nextHop := EMPTY_NODE_ID, lastUpdate := 0))
  }

  /** What u has heard when every neighbour has told its table. A rebuild reads neither versions nor arrival times, so
      they are left at zero here; RoundByReception covers every choice of them. */
  function Heard(g: Graph, t: Tables, u: NodeId): Store
  {
    map n | n in Links(g, u) ::
      StoredAdvertisement(Advertisement(n, 0, 0, OnWire(AdvertisedRoutes(TableOf(t, n), Some(u), PoisonReverse))), 0)
  }

  ghost function Round(g: Graph, t: Tables, s: Snapshot): Tables
  {
    map u | u in g.nodes :: Rebuilt(PeersOf(s, u), Heard(g, t, u), s.now)
  }

  ghost predicate ValidRound(network: IPv6, g: Graph, t: Tables, s: Snapshot) {
    ValidGraph(g) && ValidTables(network, g, t) && ValidSnapshot(network, g, s)
  }

  /** The tables after one round per snapshot; the clock and the peer lists may differ from round to round. */
  ghost function Run(g: Graph, t: Tables, rounds: seq<Snapshot>): Tables {
    if rounds == [] then t else Round(g, Run(g, t, rounds[..|rounds| - 1]), rounds[|rounds| - 1])
  }

  // ---------- one round, destination by destination ----------

  /** All nodes' routes to one destination. */
  type Column = map<NodeId, Entry>

  function ColumnOf(t: Tables, d: NodeId): Column {
    map u | u in t && View(t[u], d).Some? :: View(t[u], d).value
  }

  function At(column: Column, u: NodeId): Option<Entry> {
    if u in column then Some(column[u]) else None
  }

  /** What neighbour n makes u believe: poisoned and unreachable routes are no offer. */
  function OfferTo(column: Column, n: NodeId, u: NodeId): Option<uint32> {
    if n in column && column[n].nextHop != u && column[n].metric + 1 < ROUTE_METRIC_INFINITY
    then Some(column[n].metric + 1) else None
  }

  ghost predicate Choice(g: Graph, column: Column, u: NodeId, d: NodeId, e: Entry) {
    || (d in Links(g, u) && e == Entry(1, d))
    || (e.nextHop in Links(g, u) && e.nextHop != d && OfferTo(column, e.nextHop, u) == Some(e.metric))
  }

  /** v is the least (metric, next hop) over u's choices. */
  ghost predicate BestChoice(g: Graph, column: Column, u: NodeId, d: NodeId, v: Option<Entry>) {
    match v
    case None => forall e :: !Choice(g, column, u, d, e)
    case Some(b) => Choice(g, column, u, d, b) && forall e | Choice(g, column, u, d, e) :: !Better(e, b)
  }

  /** A route as it arrives. */
  function Stripped(held: Option<Entry>): Option<Entry> {
    match held
    case None => None
    case Some(e) => Some(e.(nextHop := EMPTY_NODE_ID))
  }

  lemma OnWireView(network: IPv6, routes: seq<Route>)
    requires Sound(network, routes)
    ensures Sound(network, OnWire(routes)) && Nodes(OnWire(routes)) <= Nodes(routes)
    ensures forall d: NodeId :: View(OnWire(routes), d) == Stripped(View(routes, d))
  {
    var wire := OnWire(routes);
    forall i | 0 <= i < |wire| ensures ValidRoute(network, wire[i]) && wire[i].metric <= ROUTE_METRIC_INFINITY
                                       && wire[i].destinationNode in Nodes(routes) {
      assert routes[i] in routes;
    }
    forall d: NodeId ensures View(wire, d) == Stripped(View(routes, d)) {
      IndexOfIs(wire, d, IndexOf(routes, d));
    }
  }

  /** A neighbour's table as it arrives: poisoned towards u, then stripped for the wire. */
  function Received(held: Option<Entry>, u: NodeId): Option<Entry> {
    Stripped(Poisoned(held, u))
  }

  lemma ReceivedView(network: IPv6, routes: seq<Route>, u: NodeId)
    requires Sound(network, routes)
    ensures var adv := OnWire(AdvertisedRoutes(routes, Some(u), PoisonReverse));
            && Sound(network, adv)
            && Nodes(adv) <= Nodes(routes)
            && forall d: NodeId :: View(adv, d) == Received(View(routes, d), u)
  {
    var adv := AdvertisedRoutes(routes, Some(u), PoisonReverse);
    PoisonReverseView(network, routes, u);
    forall i | 0 <= i < |adv|
      ensures adv[i].destinationNode in Nodes(routes) && adv[i].metric <= ROUTE_METRIC_INFINITY
    {
      assert routes[i] in routes;
    }
    OnWireView(network, adv);
  }

  lemma ColumnAt(t: Tables, n: NodeId, d: NodeId)
    ensures At(ColumnOf(t, d), n) == View(TableOf(t, n), d)
  {
  }

  lemma OfferReceived(t: Tables, store: Store, n: NodeId, u: NodeId, d: NodeId)
    requires n in store && View(store[n].advertisement.routes, d) == Received(View(TableOf(t, n), d), u)
    ensures Offer(store, n, d) == OfferTo(ColumnOf(t, d), n, u)
  {
    ColumnAt(t, n, d);
  }

  lemma HeardFrom(network: IPv6, g: Graph, t: Tables, u: NodeId, n: NodeId)
    requires ValidTables(network, g, t) && n in Links(g, u) && n in g.nodes
    ensures var routes := Heard(g, t, u)[n].advertisement.routes;
            Sound(network, routes) && Nodes(routes) <= g.nodes
    ensures forall d: NodeId :: Offer(Heard(g, t, u), n, d) == OfferTo(ColumnOf(t, d), n, u)
  {
    var routes := OnWire(AdvertisedRoutes(TableOf(t, n), Some(u), PoisonReverse));
    ReceivedView(network, TableOf(t, n), u);
    assert Heard(g, t, u)[n].advertisement.routes == routes;
    forall d: NodeId ensures Offer(Heard(g, t, u), n, d) == OfferTo(ColumnOf(t, d), n, u) {
      OfferReceived(t, Heard(g, t, u), n, u, d);
    }
  }

  lemma HeardStore(network: IPv6, g: Graph, t: Tables, u: NodeId)
    requires ValidGraph(g) && ValidTables(network, g, t) && u in g.nodes
    ensures var store := Heard(g, t, u);
            && store.Keys == Links(g, u)
            && ValidStore(network, store)
            && Mentioned(store) <= g.nodes
            && forall n, d: NodeId | n in store :: Offer(store, n, d) == OfferTo(ColumnOf(t, d), n, u)
  {
    var store := Heard(g, t, u);
    forall n | n in store
      ensures Sound(network, store[n].advertisement.routes) && Nodes(store[n].advertisement.routes) <= g.nodes
      ensures forall d: NodeId :: Offer(store, n, d) == OfferTo(ColumnOf(t, d), n, u)
    {
      HeardFrom(network, g, t, u, n);
    }
    MentionedWithin(store, g.nodes);
  }

  lemma BestIsBestChoice(g: Graph, column: Column, store: Store, u: NodeId, d: NodeId, v: Option<Entry>)
    requires Links(g, u) <= store.Keys && forall n | n in Links(g, u) :: Offer(store, n, d) == OfferTo(column, n, u)
    requires IsBest(v, Links(g, u), store, Links(g, u), d)
    ensures BestChoice(g, column, u, d, v)
  {
    forall e ensures Candidate(Links(g, u), store, Links(g, u), d, e) <==> Choice(g, column, u, d, e) {}
  }

  lemma RoundBestAt(network: IPv6, g: Graph, t: Tables, s: Snapshot, u: NodeId)
    requires ValidRound(network, g, t, s) && u in g.nodes
    ensures Sound(network, TableOf(Round(g, t, s), u)) && Nodes(TableOf(Round(g, t, s), u)) <= g.nodes
    ensures forall d: NodeId :: BestChoice(g, ColumnOf(t, d), u, d, View(TableOf(Round(g, t, s), u), d))
  {
    var store, peers, links := Heard(g, t, u), PeersOf(s, u), Links(g, u);
    HeardStore(network, g, t, u);
    assert Neighbors(peers, store) == links;
    RebuiltWithin(network, peers, store, s.now, g.nodes);
    forall d: NodeId ensures BestChoice(g, ColumnOf(t, d), u, d, View(Rebuilt(peers, store, s.now), d)) {
      BestIsBestChoice(g, ColumnOf(t, d), store, u, d, View(Rebuilt(peers, store, s.now), d));
    }
  }

  /** A round leaves, at every node and for every destination, the best of that node's choices. */
  lemma RoundBest(network: IPv6, g: Graph, t: Tables, s: Snapshot)
    requires ValidRound(network, g, t, s)
    ensures ValidTables(network, g, Round(g, t, s)) && Round(g, t, s).Keys == g.nodes
    ensures forall u, d: NodeId | u in g.nodes ::
              BestChoice(g, ColumnOf(t, d), u, d, At(ColumnOf(Round(g, t, s), d), u))
  {
    forall u | u in g.nodes
      ensures Sound(network, TableOf(Round(g, t, s), u)) && Nodes(TableOf(Round(g, t, s), u)) <= g.nodes
      ensures forall d: NodeId :: BestChoice(g, ColumnOf(t, d), u, d, At(ColumnOf(Round(g, t, s), d), u))
    {
      RoundBestAt(network, g, t, s, u);
      forall d: NodeId ensures BestChoice(g, ColumnOf(t, d), u, d, At(ColumnOf(Round(g, t, s), d), u)) {
        ColumnAt(Round(g, t, s), u, d);
      }
    }
  }

  // ---------- peer lists that show the links ----------

  const MOMENT: uint64 := 1

  ghost function UpPeers(network: IPv6, ids: seq<NodeId>): seq<Peer> {
    seq(|ids|, i requires 0 <= i < |ids| => Peer(ids[i], VirtualAddress(network, ids[i]), Connected, MOMENT))
  }

  lemma UpPeersShow(network: IPv6, ids: seq<NodeId>, s: set<NodeId>)
    requires Enumerates(ids, s) && EMPTY_NODE_ID !in s
    ensures var peers := UpPeers(network, ids);
            ValidPeers(network, peers) && ConnectedIds(peers) == s && LiveIds(peers, MOMENT) == s
  {
    var peers := UpPeers(network, ids);
    forall x | x in s ensures x in ConnectedIds(peers) && x in LiveIds(peers, MOMENT) {
      var i :| 0 <= i < |ids| && ids[i] == x;
      assert peers[i] in peers;
    }
  }

  /** What every node sees when all links are up. */
  ghost function AllUp(network: IPv6, g: Graph): Snapshot {
    Snapshot(map u | u in g.nodes :: UpPeers(network, SortedIds(Links(g, u))), MOMENT)
  }

  lemma AllUpIsValid(network: IPv6, g: Graph)
    requires ValidGraph(g)
    ensures ValidSnapshot(network, g, AllUp(network, g))
  {
    forall u | u in g.nodes
      ensures var peers := PeersOf(AllUp(network, g), u);
              ValidPeers(network, peers) && ConnectedIds(peers) == Links(g, u) && LiveIds(peers, MOMENT) == Links(g, u)
    {
      UpPeersShow(network, SortedIds(Links(g, u)), Links(g, u));
    }
  }
}
