/** The routing state of one node and the steps that change it
    (AppState in include/core/app.hpp; rebuild_routing_table and run_session in src/core/daemon.cpp). */
module Daemon {
  import opened Bytes
  import opened Routing
  import opened DistanceVector
  import opened Rebuild
  import Identity

  /** How the ROUTE_ADVERTISEMENT branch of run_session ends. */
  datatype Outcome = Invalid | Stale | Unchanged | Recomputed

  /** The routing part of an AppState. */
  datatype NodeState = NodeState(routes: seq<Route>, store: Store, origins: Origins)

  const EMPTY_STATE: NodeState := NodeState([], map[], map[])

  /** An advertisement as it comes in, with what the branch reads besides the node's state: the clock when routes are
      applied and when the advertisement is filed, and the peer list and the clock when the table is rebuilt. */
  datatype Reception = Reception(sender: NodeId, advertisement: Advertisement, at: uint64, storedAt: uint64,
                                 peers: seq<Peer>, now: uint64)

  predicate WellAddressed(network: IPv6, r: Reception) {
    r.advertisement.sender == r.sender && ValidAdvertisement(network, r.advertisement)
  }

  /** The first locked region of the branch: the table is updated and the advertisement filed. Recomputed means that a
      rebuild is due; peers and now are not read yet. */
  function TakeIn(network: IPv6, s: NodeState, r: Reception): (NodeState, Outcome) {
    if !WellAddressed(network, r) then (s, Invalid)
    else if !Accepts(s.origins, r.sender, r.advertisement) then (s, Stale)
    else
      var store := s.store[r.sender := StoredAdvertisement(r.advertisement, r.storedAt)];
      var origins := s.origins[r.sender := VersionOf(r.advertisement)];
      var (routes, changed) := Apply(s.routes, r.sender, r.advertisement.routes, r.at, 1);
      (NodeState(routes, store, origins), if changed then Recomputed else Unchanged)
  }

  /** One received advertisement, with the rebuild right behind it. */
  ghost function Receive(network: IPv6, s: NodeState, r: Reception): (NodeState, Outcome) {
    var (s', outcome) := TakeIn(network, s, r);
    if outcome == Recomputed then (s'.(routes := Rebuilt(r.peers, s'.store, r.now)), Recomputed) else (s', outcome)
  }

  /** route_create_advertisement as the daemon calls it, with the version the sender stamps on it. */
  function Stamped(sender: NodeId, routes: seq<Route>, target: NodeId, version: Version): Advertisement {
    Advertisement(sender, version.generation, version.sequence, AdvertisedRoutes(routes, Some(target), PoisonReverse))
  }

  const SEQUENCE_RANGE: int := 0x1_0000_0000_0000_0000

  /** next_route_sequence++ on 64 bits. */
  function NextVersion(v: Version): Version {
    v.(sequence := (v.sequence + 1) % SEQUENCE_RANGE)
  }

  class AppState {
    const network: IPv6
    const localId: NodeId
    const generation: uint64
    const table: RouteTable
    const origins: OriginStates
    var peers: seq<Peer>
    var advertisements: Store
    var routingDirty: bool
    var nextRouteSequence: uint64

    constructor (network: IPv6, localId: NodeId, generation: uint64)
      ensures this.network == network && this.localId == localId && this.generation == generation
      ensures fresh(table) && fresh(origins)
      ensures State() == EMPTY_STATE && peers == [] && routingDirty && nextRouteSequence == 1
    {
      this.network, this.localId, this.generation, nextRouteSequence := network, localId, generation, 1;
      table := new RouteTable();
      origins := new OriginStates();
      peers, advertisements, routingDirty := [], map[], true;
    }

    ghost function State(): NodeState
      reads this, table, origins
    {
      NodeState(table.routes, advertisements, origins.versions)
    }

    /** The advertisement step of routing_loop for one session. */
    method AdvertiseTo(target: NodeId) returns (advertisement: Advertisement)
      modifies this`nextRouteSequence
      ensures advertisement == Stamped(localId, table.routes, target, Version(generation, old(nextRouteSequence)))
      ensures Version(generation, nextRouteSequence) == NextVersion(Version(generation, old(nextRouteSequence)))
    {
      advertisement := CreateAdvertisement(localId, table, nextRouteSequence, Some(target), PoisonReverse, 0);
      nextRouteSequence := (nextRouteSequence + 1) % SEQUENCE_RANGE;
      advertisement := advertisement.(generation := generation);
    }

    /** The senders of stored advertisements that are Connected peers, in ascending order. */
    method CollectNeighbors() returns (ids: seq<NodeId>)
      ensures ids == SortedIds(Neighbors(peers, advertisements))
    {
      ids := [];
      var rest := advertisements.Keys;
      while rest != {}
        invariant rest <= advertisements.Keys
        invariant StrictlySorted(ids)
        invariant forall x :: x in ids <==> x in Neighbors(peers, advertisements) && x !in rest
        decreases rest
      {
        var n :| n in rest;
        rest := rest - {n};
        if exists p :: p in peers && p.id == n && p.state == Connected {
          InsertIdSorted(ids, n);
          ids := InsertId(ids, n);
        }
      }
      SortedOnce(ids, SortedIds(Neighbors(peers, advertisements)));
    }

    method RebuildRoutingTable(now: uint64)
      modifies table
      ensures table.routes == Rebuilt(peers, advertisements, now)
    {
      table.routes := [];
      var i := 0;
      while i < |peers|
        invariant 0 <= i <= |peers|
        invariant table.routes == Direct(peers[..i], now)
      {
        DirectNext(peers, i, now);
        var p := peers[i];
        if p.state == Connected && PeerIsAlive(p, now) {
          var _ := table.AddRoute(Route(p.virtualAddress, p.id, p.id, 1, now));
        }
        i := i + 1;
      }
      assert peers[..i] == peers;
      var ids := CollectNeighbors();
      var k := 0;
      while k < |ids|
        invariant 0 <= k <= |ids|
        invariant forall n | n in ids[..k] :: n in advertisements
        invariant table.routes == Fold(Direct(peers, now), ids[..k], advertisements, now)
      {
        assert ids[k] in ids;
        FoldNext(Direct(peers, now), ids, k, advertisements, now);
        var n := ids[k];
        var _, _ := DistanceVectorUpdate(table, n, advertisements[n].advertisement, now, 1, null);
        k := k + 1;
      }
      assert ids[..k] == ids;
    }

    /** The ROUTE_ADVERTISEMENT branch of run_session, after the payload has been decoded. */
    method ReceiveAdvertisement(sender: NodeId, advertisement: Advertisement, at: uint64, storedAt: uint64, now: uint64)
      returns (outcome: Outcome)
      modifies this`advertisements, this`routingDirty, table, origins
      ensures (State(), outcome)
              == Receive(network, old(State()), Reception(sender, advertisement, at, storedAt, peers, now))
      ensures routingDirty <==> old(routingDirty) || outcome == Recomputed
    {
      if advertisement.sender != sender || !ValidAdvertisement(network, advertisement) {
        return Invalid;
      }
      var accepted, changed := DistanceVectorUpdate(table, sender, advertisement, at, 1, origins);
      if accepted {
        advertisements := advertisements[sender := StoredAdvertisement(advertisement, storedAt)];
      }
      if !accepted {
        return Stale;
      }
      if !changed {
        return Unchanged;
      }
      RebuildRoutingTable(now);
      routingDirty := true;
      return Recomputed;
    }
  }

  // ---------- runs of receptions ----------

  ghost function ReceiveAll(network: IPv6, s: NodeState, rs: seq<Reception>): NodeState {
    if rs == [] then s
    else Receive(network, ReceiveAll(network, s, rs[..|rs| - 1]), rs[|rs| - 1]).0
  }

  /** The live table shows what a rebuild from the stored advertisements would. */
  ghost predicate InStep(network: IPv6, s: NodeState, peers: seq<Peer>, now: uint64) {
    && ValidPeers(network, peers)
    && ValidStore(network, s.store)
    && Sound(network, s.routes)
    && |s.routes| <= MAX_ROUTE_TABLE_ENTRIES
    && SameView(s.routes, Rebuilt(peers, s.store, now))
  }

  /** Two readings of peer list and clock that show the same peers Connected and the same peers alive. */
  ghost predicate SameNeighbors(peers: seq<Peer>, now: uint64, peers': seq<Peer>, now': uint64) {
    ConnectedIds(peers) == ConnectedIds(peers') && LiveIds(peers, now) == LiveIds(peers', now')
  }

  /** A rebuild depends on peer list and clock only through who is Connected and who is alive. */
  lemma RebuiltAnyTime(network: IPv6, peers: seq<Peer>, now: uint64, peers': seq<Peer>, now': uint64, store: Store,
                       universe: set<NodeId>)
    requires ValidPeers(network, peers) && ValidPeers(network, peers') && ValidStore(network, store)
    requires SameNeighbors(peers, now, peers', now')
    requires LiveIds(peers, now) <= universe && Mentioned(store) <= universe && |universe| <= MAX_ROUTE_TABLE_ENTRIES
    ensures SameView(Rebuilt(peers, store, now), Rebuilt(peers', store, now'))
  {
    RebuiltWithin(network, peers, store, now, universe);
    RebuiltWithin(network, peers', store, now', universe);
    var live, ids := LiveIds(peers, now), Neighbors(peers, store);
    assert Neighbors(peers', store) == ids;
    forall d: NodeId ensures View(Rebuilt(peers, store, now), d) == View(Rebuilt(peers', store, now'), d) {
      BestUnique(View(Rebuilt(peers, store, now), d), View(Rebuilt(peers', store, now'), d), live, store, ids, d);
    }
  }

  lemma DestinationsWithin(live: set<NodeId>, store: Store, ids: set<NodeId>, universe: set<NodeId>)
    requires live <= universe && Mentioned(store) <= universe
    ensures |Destinations(live, store, ids)| <= |universe|
  {
    SubsetSize(Destinations(live, store, ids), universe);
  }

  /** Skipping the rebuild when nothing changed is sound: every reception keeps the table in step. */
  lemma ReceiveKeepsInStep(network: IPv6, s: NodeState, r: Reception, universe: set<NodeId>)
    requires InStep(network, s, r.peers, r.now) && r.sender in ConnectedIds(r.peers)
    requires UniqueNodes(r.advertisement.routes) && Nodes(r.advertisement.routes) <= universe
    requires LiveIds(r.peers, r.now) <= universe && Mentioned(s.store) <= universe
             && |universe| <= MAX_ROUTE_TABLE_ENTRIES
    ensures var s' := Receive(network, s, r).0; InStep(network, s', r.peers, r.now) && Mentioned(s'.store) <= universe
  {
    if Accepted(network, s.origins, r) {
      var stored := StoredAdvertisement(r.advertisement, r.storedAt);
      var store' := s.store[r.sender := stored];
      StillMentioned(s.store, r.sender, stored, universe);
      AcceptedKeepsInStep(network, s, r, stored, store', universe);
    }
  }

  lemma StillMentioned(store: Store, n: NodeId, stored: StoredAdvertisement, universe: set<NodeId>)
    requires Mentioned(store) <= universe && Nodes(stored.advertisement.routes) <= universe
    ensures Mentioned(store[n := stored]) <= universe
  {
    var store' := store[n := stored];
    forall d | d in Mentioned(store') ensures d in universe {
      var m, a :| m in store' && a in store'[m].advertisement.routes && a.destinationNode == d;
      if m == n {
        assert d in Nodes(stored.advertisement.routes);
      } else {
        assert d in Mentioned(store);
      }
    }
  }

  lemma AcceptedKeepsInStep(network: IPv6, s: NodeState, r: Reception, stored: StoredAdvertisement, store': Store,
                            universe: set<NodeId>)
    requires InStep(network, s, r.peers, r.now) && r.sender in ConnectedIds(r.peers) && Accepted(network, s.origins, r)
    requires stored == StoredAdvertisement(r.advertisement, r.storedAt) && store' == s.store[r.sender := stored]
    requires UniqueNodes(r.advertisement.routes) && |universe| <= MAX_ROUTE_TABLE_ENTRIES
    requires LiveIds(r.peers, r.now) <= universe && Mentioned(s.store) <= universe && Mentioned(store') <= universe
    ensures InStep(network, Receive(network, s, r).0, r.peers, r.now)
  {
    var live, advertised := LiveIds(r.peers, r.now), r.advertisement.routes;
    DestinationsWithin(live, s.store, Neighbors(r.peers, s.store), universe);
    DestinationsWithin(live, store', Neighbors(r.peers, store'), universe);
    ChangedIsExact(network, r.peers, s.store, s.routes, r.sender, stored, r.at, r.now);
    RebuiltIsArgmin(network, r.peers, store', r.now);
    ApplyKeepsSound(network, s.routes, r.sender, advertised, r.at, 1);
    if !Apply(s.routes, r.sender, advertised, r.at, 1).1 {
      QuietViews(s.routes, r.sender, advertised, r.at);
    }
  }

  lemma QuietViews(routes: seq<Route>, n: NodeId, advertised: seq<Route>, at: uint64)
    requires !Apply(routes, n, advertised, at, 1).1
    ensures SameView(Apply(routes, n, advertised, at, 1).0, routes)
  {
    var after := Apply(routes, n, advertised, at, 1).0;
    if Kept(routes, n, advertised) != routes {
      KeptLoses(routes, n, advertised);
      KeptShrinks(routes, n, advertised);
    }
    ApplyEachQuiet(routes, n, advertised, at, 1);
    forall d: NodeId ensures View(after, d) == View(routes, d) {
      assert forall i | 0 <= i < |routes| :: SameRoute(routes[i], after[i]);
      IndexOfIs(after, d, IndexOf(routes, d));
    }
  }

  lemma {:induction false} KeptShrinks(routes: seq<Route>, n: NodeId, advertised: seq<Route>)
    requires Kept(routes, n, advertised) != routes
    ensures |Kept(routes, n, advertised)| < |routes|
  {
    var init, last := routes[..|routes| - 1], routes[|routes| - 1];
    assert routes == init + [last];
    KeptMembers(init, n, advertised);
    if !Withdrawn(last, n, advertised) {
      KeptShrinks(init, n, advertised);
    }
  }

  /** Over any run of receptions the table always equals a rebuild, as long as the same peers are Connected and alive
      whenever the code looks; clocks and peer lists may differ each time. */
  lemma {:induction false} RunStaysInStep(network: IPv6, s: NodeState, rs: seq<Reception>, peers: seq<Peer>,
                                          now: uint64, universe: set<NodeId>)
    requires InStep(network, s, peers, now) && |universe| <= MAX_ROUTE_TABLE_ENTRIES
    requires LiveIds(peers, now) <= universe && Mentioned(s.store) <= universe
    requires forall r | r in rs :: && ValidPeers(network, r.peers) && SameNeighbors(peers, now, r.peers, r.now)
                                   && r.sender in ConnectedIds(peers)
                                   && UniqueNodes(r.advertisement.routes)
                                   && Nodes(r.advertisement.routes) <= universe
    ensures var s' := ReceiveAll(network, s, rs); InStep(network, s', peers, now) && Mentioned(s'.store) <= universe
  {
    if rs != [] {
      var init, last := rs[..|rs| - 1], rs[|rs| - 1];
      assert last in rs;
      RunStaysInStep(network, s, init, peers, now, universe);
      StepStaysInStep(network, ReceiveAll(network, s, init), last, peers, now, universe);
    }
  }

  lemma StepStaysInStep(network: IPv6, s: NodeState, r: Reception, peers: seq<Peer>, now: uint64, universe: set<NodeId>)
    requires InStep(network, s, peers, now) && |universe| <= MAX_ROUTE_TABLE_ENTRIES
    requires LiveIds(peers, now) <= universe && Mentioned(s.store) <= universe
    requires ValidPeers(network, r.peers) && SameNeighbors(peers, now, r.peers, r.now)
             && r.sender in ConnectedIds(peers)
    requires UniqueNodes(r.advertisement.routes) && Nodes(r.advertisement.routes) <= universe
    ensures var s' := Receive(network, s, r).0; InStep(network, s', peers, now) && Mentioned(s'.store) <= universe
  {
    var s' := Receive(network, s, r).0;
    RebuiltAnyTime(network, peers, now, r.peers, r.now, s.store, universe);
    ReceiveKeepsInStep(network, s, r, universe);
    RebuiltAnyTime(network, peers, now, r.peers, r.now, s'.store, universe);
  }

  // ---------- the version guard over runs ----------

  predicate Accepted(network: IPv6, origins: Origins, r: Reception) {
    WellAddressed(network, r) && Accepts(origins, r.sender, r.advertisement)
  }

  /** What a reception has to be like to be accepted: it comes from the sender it names, names at most 16 destinations,
      set, under the addresses derived from them and at metrics up to 16, and its generation is greater than the
      recorded one or the same with a greater sequence number. */
  ghost predicate Admissible(network: IPv6, origins: Origins, r: Reception) {
    var adv := r.advertisement;
    && adv.sender == r.sender && (exists i :: 0 <= i < 32 && adv.sender[i] != 0) && |adv.routes| <= 16
    && (forall x | x in adv.routes ::
          && (exists i :: 0 <= i < 32 && x.destinationNode[i] != 0) && x.metric <= 16
          && x.destination[..8] == network[..8] && x.destination[8..] == x.destinationNode[..8])
    && (r.sender in origins ==>
          || adv.generation > origins[r.sender].generation
          || (adv.generation == origins[r.sender].generation && adv.sequence > origins[r.sender].sequence))
  }

  lemma AddressIs(network: IPv6, address: IPv6, id: NodeId)
    ensures address == VirtualAddress(network, id) <==> address[..8] == network[..8] && address[8..] == id[..8]
  {
    assert address == address[..8] + address[8..];
  }

  lemma AcceptedIff(network: IPv6, origins: Origins, r: Reception)
    ensures Accepted(network, origins, r) <==> Admissible(network, origins, r)
  {
    EmptyIsZeros(r.advertisement.sender);
    forall x | x in r.advertisement.routes
      ensures ValidRoute(network, x)
              <==> && (exists i :: 0 <= i < 32 && x.destinationNode[i] != 0)
                   && x.destination[..8] == network[..8] && x.destination[8..] == x.destinationNode[..8]
    {
      EmptyIsZeros(x.destinationNode);
      AddressIs(network, x.destination, x.destinationNode);
    }
  }

  lemma ReceiveGuard(network: IPv6, s: NodeState, r: Reception)
    ensures Accepted(network, s.origins, r) <==> Admissible(network, s.origins, r)
    ensures var (s', outcome) := Receive(network, s, r);
            && (Accepted(network, s.origins, r) <==> outcome == Unchanged || outcome == Recomputed)
            && (if Accepted(network, s.origins, r)
                then s'.origins == s.origins[r.sender := VersionOf(r.advertisement)]
                     && s'.store == s.store[r.sender := StoredAdvertisement(r.advertisement, r.storedAt)]
                else s' == s)
  {
    AcceptedIff(network, s.origins, r);
  }

  /** The versions accepted from one origin, in the order they were accepted. */
  ghost function AcceptedVersions(network: IPv6, s: NodeState, rs: seq<Reception>, o: NodeId): seq<Version> {
    if rs == [] then []
    else
      var init, last := rs[..|rs| - 1], rs[|rs| - 1];
      var vs := AcceptedVersions(network, s, init, o);
      if last.sender == o && Accepted(network, ReceiveAll(network, s, init).origins, last)
      then vs + [VersionOf(last.advertisement)] else vs
  }

  ghost predicate FreshOf(network: IPv6, s: NodeState, rs: seq<Reception>, o: NodeId) {
    exists r :: r in rs && r.sender == o && WellAddressed(network, r) &&
      o in s.store && s.store[o].advertisement == r.advertisement
  }

  /** The recorded version of o: the last accepted one, or what was recorded before. */
  function LastVersion(vs: seq<Version>, origins: Origins, o: NodeId): Option<Version> {
    if vs != [] then Some(vs[|vs| - 1]) else if o in origins then Some(origins[o]) else None
  }

  /** Accepted versions strictly increase, also past the version recorded before the run. */
  lemma {:induction false} AcceptedIncrease(network: IPv6, s: NodeState, rs: seq<Reception>, o: NodeId)
    ensures VersionsIncrease(AcceptedVersions(network, s, rs, o), s.origins, o, ReceiveAll(network, s, rs).origins)
  {
    if rs != [] {
      var init, last := rs[..|rs| - 1], rs[|rs| - 1];
      AcceptedIncrease(network, s, init, o);
      var s' := ReceiveAll(network, s, init);
      ReceiveGuard(network, s', last);
      var vs := AcceptedVersions(network, s, init, o);
      if last.sender == o && Accepted(network, s'.origins, last) {
        OneMoreVersion(vs, s.origins, o, s'.origins, VersionOf(last.advertisement));
      } else {
        assert vs + [] == vs;
      }
    }
  }

  /** The versions increase from what origins says about o to what it says afterwards. */
  ghost predicate VersionsIncrease(vs: seq<Version>, origins: Origins, o: NodeId, after: Origins) {
    && (forall i, j | 0 <= i < j < |vs| :: Newer(vs[j], vs[i]))
    && (forall i | 0 <= i < |vs| && o in origins :: Newer(vs[i], origins[o]))
    && LastVersion(vs, origins, o) == LastVersion([], after, o)
  }

  lemma OneMoreVersion(vs: seq<Version>, origins: Origins, o: NodeId, after: Origins, v: Version)
    requires VersionsIncrease(vs, origins, o, after) && (o in after ==> Newer(v, after[o]))
    ensures VersionsIncrease(vs + [v], origins, o, after[o := v])
  {
    if vs != [] {
      assert Newer(v, vs[|vs| - 1]);
      assert forall i | 0 <= i < |vs| :: Newer(v, vs[i]);
    }
  }

  /** What s has stored for o is an advertisement delivered in rs, and no delivered one is newer. */
  ghost predicate NewestOf(network: IPv6, s: NodeState, rs: seq<Reception>, o: NodeId) {
    && (o in s.store <==> exists r :: r in rs && r.sender == o && WellAddressed(network, r))
    && (o in s.origins <==> o in s.store)
    && (o in s.store ==>
          && FreshOf(network, s, rs, o)
          && s.origins[o] == VersionOf(s.store[o].advertisement)
          && forall r | r in rs && r.sender == o && WellAddressed(network, r) ::
               !Newer(VersionOf(r.advertisement), s.origins[o]))
  }

  lemma NewestAfter(network: IPv6, s: NodeState, init: seq<Reception>, last: Reception, o: NodeId)
    requires NewestOf(network, s, init, o)
    ensures NewestOf(network, Receive(network, s, last).0, init + [last], o)
  {
    var s', rs := Receive(network, s, last).0, init + [last];
    ReceiveGuard(network, s, last);
    assert last in rs && forall r | r in init :: r in rs;
    if last.sender == o && Accepted(network, s.origins, last) {
      assert FreshOf(network, s', rs, o);
    } else if o in s.store {
      var r :| r in init && r.sender == o && WellAddressed(network, r) && s.store[o].advertisement == r.advertisement;
      assert r in rs;
    }
  }

  /** Starting empty, what is stored for an origin is a delivered advertisement that no delivered one is newer than. */
  lemma {:induction false} StoredIsNewest(network: IPv6, rs: seq<Reception>, o: NodeId)
    ensures NewestOf(network, ReceiveAll(network, EMPTY_STATE, rs), rs, o)
  {
    if rs != [] {
      var init, last := rs[..|rs| - 1], rs[|rs| - 1];
      StoredIsNewest(network, init, o);
      NewestAfter(network, ReceiveAll(network, EMPTY_STATE, init), init, last, o);
      assert rs == init + [last];
    }
  }

  ghost function Deliveries(rs: seq<Reception>): set<(NodeId, Advertisement)> {
    set r | r in rs :: (r.sender, r.advertisement)
  }

  /** Reordering and duplication do not matter when a version determines what was advertised. */
  lemma DeliveryOrderIrrelevant(network: IPv6, rs: seq<Reception>, rs': seq<Reception>, o: NodeId)
    requires Deliveries(rs) == Deliveries(rs')
    requires forall r, r' | r in rs && r' in rs && r.sender == o && r'.sender == o
                            && VersionOf(r.advertisement) == VersionOf(r'.advertisement) ::
                               r.advertisement == r'.advertisement
    ensures var s := ReceiveAll(network, EMPTY_STATE, rs);
            var s' := ReceiveAll(network, EMPTY_STATE, rs');
            && (o in s.store <==> o in s'.store)
            && (o in s.store ==> s.store[o].advertisement == s'.store[o].advertisement)
  {
    StoredIsNewest(network, rs, o);
    StoredIsNewest(network, rs', o);
    var s := ReceiveAll(network, EMPTY_STATE, rs);
    var s' := ReceiveAll(network, EMPTY_STATE, rs');
    if o in s.store {
      var r :| r in rs && r.sender == o && WellAddressed(network, r) && s.store[o].advertisement == r.advertisement;
      var twin := Twin(rs, rs', r);
      assert WellAddressed(network, twin);
    }
    if o in s'.store {
      var r' :| r' in rs' && r'.sender == o && WellAddressed(network, r')
          && s'.store[o].advertisement == r'.advertisement;
      var twin' := Twin(rs', rs, r');
      assert WellAddressed(network, twin');
    }
  }

  lemma Twin(rs: seq<Reception>, rs': seq<Reception>, r: Reception) returns (twin: Reception)
    requires r in rs && Deliveries(rs) == Deliveries(rs')
    ensures twin in rs' && twin.sender == r.sender && twin.advertisement == r.advertisement
  {
    assert (r.sender, r.advertisement) in Deliveries(rs');
    twin :| twin in rs' && twin.sender == r.sender && twin.advertisement == r.advertisement;
  }

  /** Whatever a sender sent before and in whatever order it arrived: what it sends under a greater generation than all
      of that is accepted and stored. */
  lemma GreaterGenerationAccepted(network: IPv6, rs: seq<Reception>, r: Reception)
    requires WellAddressed(network, r)
    requires forall r' | r' in rs && r'.sender == r.sender :: r'.advertisement.generation < r.advertisement.generation
    ensures var (s', outcome) := Receive(network, ReceiveAll(network, EMPTY_STATE, rs), r);
            && (outcome == Unchanged || outcome == Recomputed)
            && r.sender in s'.store && s'.store[r.sender].advertisement == r.advertisement
  {
    StoredIsNewest(network, rs, r.sender);
    ReceiveGuard(network, ReceiveAll(network, EMPTY_STATE, rs), r);
  }

  /** A restarted sender is heard at once: r is from its latest run, everything received before is from earlier ones. */
  lemma RestartAccepted(network: IPv6, rs: seq<Reception>, r: Reception, file: Option<uint64>,
                        starts: seq<Identity.Start>)
    requires WellAddressed(network, r)
    requires var gs := Identity.Generations(file, starts);
             && gs != [] && r.advertisement.generation == gs[|gs| - 1]
             && forall r' | r' in rs && r'.sender == r.sender :: r'.advertisement.generation in gs[..|gs| - 1]
    ensures var (s', outcome) := Receive(network, ReceiveAll(network, EMPTY_STATE, rs), r);
            && (outcome == Unchanged || outcome == Recomputed)
            && r.sender in s'.store && s'.store[r.sender].advertisement == r.advertisement
  {
    Identity.GenerationsIncrease(file, starts);
    GreaterGenerationAccepted(network, rs, r);
  }
}
