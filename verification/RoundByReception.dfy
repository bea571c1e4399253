/** A synchronous round is what a node's reception code computes when its neighbours' advertisements arrive,
    one by one, in any order, with repetitions and whatever versions their senders stamp on them. */
module RoundByReception {
  import opened Bytes
  import opened Routing
  import opened DistanceVector
  import opened Rebuild
  import opened Daemon
  import opened Graph
  import opened Network

  /** Some reception from n is newer than anything recorded. */
  ghost predicate NewsFrom(rs: seq<Reception>, n: NodeId, origins: Origins) {
    exists r :: r in rs && r.sender == n && Accepts(origins, n, r.advertisement)
  }

  ghost predicate StoredIs(s: NodeState, n: NodeId, routes: seq<Route>) {
    n in s.store && s.store[n].advertisement.routes == routes
  }

  /** If all that n sends in rs carries the same routes and some of it is news, those routes are stored in the end. */
  lemma {:induction false} StoredAfter(network: IPv6, s: NodeState, rs: seq<Reception>, n: NodeId, routes: seq<Route>)
    requires forall r | r in rs && r.sender == n :: r.advertisement.routes == routes && WellAddressed(network, r)
    ensures var s' := ReceiveAll(network, s, rs);
            if NewsFrom(rs, n, s.origins) then StoredIs(s', n, routes)
            else (n in s'.origins <==> n in s.origins) && (n in s.origins ==> s'.origins[n] == s.origins[n])
  {
    if rs != [] {
      var init, last := rs[..|rs| - 1], rs[|rs| - 1];
      assert rs == init + [last];
      assert forall r | r in init :: r in rs;
      StoredAfter(network, s, init, n, routes);
      ReceiveGuard(network, ReceiveAll(network, s, init), last);
      assert last in rs;
    }
  }

  /** Two stores with the same routes from the same neighbours rebuild to the same table; versions and arrival times do
      not matter. */
  lemma SameOffersSameTable(network: IPv6, peers: seq<Peer>, a: Store, b: Store, now: uint64, universe: set<NodeId>)
    requires ValidPeers(network, peers) && ValidStore(network, a) && ValidStore(network, b)
    requires LiveIds(peers, now) <= universe && Mentioned(a) <= universe && Mentioned(b) <= universe
    requires |universe| <= MAX_ROUTE_TABLE_ENTRIES
    requires a.Keys == b.Keys && forall n | n in a :: a[n].advertisement.routes == b[n].advertisement.routes
    ensures SameView(Rebuilt(peers, a, now), Rebuilt(peers, b, now))
  {
    var live, ids := LiveIds(peers, now), Neighbors(peers, a);
    assert Neighbors(peers, b) == ids;
    RebuiltWithin(network, peers, a, now, universe);
    RebuiltWithin(network, peers, b, now, universe);
    forall d: NodeId ensures View(Rebuilt(peers, a, now), d) == View(Rebuilt(peers, b, now), d) {
      assert forall e :: Candidate(live, a, ids, d, e) <==> Candidate(live, b, ids, d, e);
      BestUnique(View(Rebuilt(peers, a, now), d), View(Rebuilt(peers, b, now), d), live, a, ids, d);
    }
  }

  /** The receptions carry the routes of heard and nothing else, under any versions, and each neighbour's routes arrive
      at least once under a version newer than the one recorded. */
  ghost predicate Delivers(rs: seq<Reception>, heard: Store, origins: Origins) {
    && (forall r | r in rs :: && r.sender in heard && r.advertisement.sender == r.sender
                              && r.advertisement.routes == heard[r.sender].advertisement.routes)
    && forall n | n in heard :: NewsFrom(rs, n, origins)
  }

  /** Peer list and clock show the same neighbours at every reception. */
  ghost predicate SteadyNeighbors(network: IPv6, rs: seq<Reception>, peers: seq<Peer>, now: uint64) {
    forall r | r in rs :: ValidPeers(network, r.peers) && SameNeighbors(peers, now, r.peers, r.now)
  }

  ghost predicate ValidHeard(network: IPv6, heard: Store) {
    ValidStore(network, heard) && forall n | n in heard :: ValidAdvertisement(network, heard[n].advertisement)
  }

  lemma DeliveredIsWellAddressed(network: IPv6, rs: seq<Reception>, heard: Store, origins: Origins, r: Reception)
    requires ValidHeard(network, heard) && Delivers(rs, heard, origins) && r in rs
    ensures WellAddressed(network, r) && UniqueNodes(r.advertisement.routes)
    ensures Nodes(r.advertisement.routes) <= Mentioned(heard)
  {
    assert ValidAdvertisement(network, heard[r.sender].advertisement);
    forall d | d in Nodes(r.advertisement.routes) ensures d in Mentioned(heard) {}
  }

  lemma DeliveredIsStored(network: IPv6, s: NodeState, rs: seq<Reception>, heard: Store)
    requires ValidHeard(network, heard) && Delivers(rs, heard, s.origins) && s.store.Keys <= heard.Keys
    ensures ReceiveAll(network, s, rs).store.Keys == heard.Keys
    ensures forall n | n in heard :: StoredIs(ReceiveAll(network, s, rs), n, heard[n].advertisement.routes)
  {
    StoredSenders(network, s, rs, heard.Keys);
    forall n | n in heard ensures StoredIs(ReceiveAll(network, s, rs), n, heard[n].advertisement.routes) {
      forall r | r in rs && r.sender == n
        ensures r.advertisement.routes == heard[n].advertisement.routes && WellAddressed(network, r)
      {
        DeliveredIsWellAddressed(network, rs, heard, s.origins, r);
      }
      StoredAfter(network, s, rs, n, heard[n].advertisement.routes);
    }
  }

  lemma DeliveredStaysInStep(network: IPv6, s: NodeState, rs: seq<Reception>, heard: Store, peers: seq<Peer>,
                             now: uint64, universe: set<NodeId>)
    requires InStep(network, s, peers, now) && SteadyNeighbors(network, rs, peers, now)
    requires LiveIds(peers, now) <= universe && Mentioned(s.store) <= universe && Mentioned(heard) <= universe
    requires |universe| <= MAX_ROUTE_TABLE_ENTRIES && ValidHeard(network, heard)
    requires heard.Keys <= ConnectedIds(peers) && Delivers(rs, heard, s.origins)
    ensures var s' := ReceiveAll(network, s, rs); InStep(network, s', peers, now) && Mentioned(s'.store) <= universe
  {
    forall r | r in rs ensures UniqueNodes(r.advertisement.routes) && Nodes(r.advertisement.routes) <= universe {
      DeliveredIsWellAddressed(network, rs, heard, s.origins, r);
    }
    RunStaysInStep(network, s, rs, peers, now, universe);
  }

  /** Receiving what was heard, in whatever order, leaves the table a rebuild from it would give. */
  lemma ReceivingIsRebuilding(network: IPv6, s: NodeState, rs: seq<Reception>, heard: Store, peers: seq<Peer>,
                              now: uint64, universe: set<NodeId>)
    requires InStep(network, s, peers, now) && SteadyNeighbors(network, rs, peers, now)
    requires LiveIds(peers, now) <= universe && Mentioned(s.store) <= universe && Mentioned(heard) <= universe
    requires |universe| <= MAX_ROUTE_TABLE_ENTRIES && ValidHeard(network, heard)
    requires heard.Keys <= ConnectedIds(peers) && s.store.Keys <= heard.Keys
    requires Delivers(rs, heard, s.origins)
    ensures SameView(ReceiveAll(network, s, rs).routes, Rebuilt(peers, heard, now))
  {
    DeliveredStaysInStep(network, s, rs, heard, peers, now, universe);
    DeliveredIsStored(network, s, rs, heard);
    SameOffersSameTable(network, peers, ReceiveAll(network, s, rs).store, heard, now, universe);
  }

  lemma HeardIsValid(network: IPv6, g: Graph, t: Tables, u: NodeId)
    requires ValidGraph(g) && ValidTables(network, g, t) && u in g.nodes
    ensures ValidHeard(network, Heard(g, t, u))
  {
    HeardStore(network, g, t, u);
    forall n | n in Heard(g, t, u) ensures ValidAdvertisement(network, Heard(g, t, u)[n].advertisement) {
      HeardFrom(network, g, t, u, n);
      UniqueNodesBound(Heard(g, t, u)[n].advertisement.routes, g.nodes);
    }
  }

  /** One node's part of a round, step by step: each neighbour stamps its own versions, clocks advance, advertisements
      are repeated and reordered, and the table is that of the round. */
  lemma RoundIsReception(network: IPv6, g: Graph, t: Tables, snapshot: Snapshot, u: NodeId, s: NodeState,
                         rs: seq<Reception>)
    requires ValidRound(network, g, t, snapshot) && u in g.nodes
    requires InStep(network, s, PeersOf(snapshot, u), snapshot.now)
    requires SteadyNeighbors(network, rs, PeersOf(snapshot, u), snapshot.now)
    requires Mentioned(s.store) <= g.nodes && s.store.Keys <= Links(g, u)
    requires Delivers(rs, Heard(g, t, u), s.origins)
    ensures SameView(ReceiveAll(network, s, rs).routes, TableOf(Round(g, t, snapshot), u))
  {
    HeardStore(network, g, t, u);
    HeardIsValid(network, g, t, u);
    ReceivingIsRebuilding(network, s, rs, Heard(g, t, u), PeersOf(snapshot, u), snapshot.now, g.nodes);
  }

  lemma {:induction false} StoredSenders(network: IPv6, s: NodeState, rs: seq<Reception>, senders: set<NodeId>)
    requires s.store.Keys <= senders && forall r | r in rs :: r.sender in senders
    ensures ReceiveAll(network, s, rs).store.Keys <= senders
  {
    if rs != [] {
      var init, last := rs[..|rs| - 1], rs[|rs| - 1];
      assert last in rs;
      StoredSenders(network, s, init, senders);
      ReceiveGuard(network, ReceiveAll(network, s, init), last);
    }
  }
}
