/** Recomputing the table from the peer snapshot and the stored advertisements
    (rebuild_routing_table in src/core/daemon.cpp). */
module Rebuild {
  import opened Bytes
  import opened Sequences
  import opened Routing
  import opened DistanceVector

  const PEER_TIMEOUT_MS: nat := 5000

  datatype PeerState = Unknown | Connecting | Connected | Disconnected

  datatype Peer = Peer(id: NodeId, virtualAddress: IPv6, state: PeerState, lastSeen: uint64)

  datatype StoredAdvertisement = StoredAdvertisement(advertisement: Advertisement, receivedAt: uint64)

  type Store = map<NodeId, StoredAdvertisement>

  predicate PeerIsAlive(peer: Peer, now: uint64) {
    peer.state == Connected && peer.lastSeen != 0 && peer.lastSeen <= now && now - peer.lastSeen <= PEER_TIMEOUT_MS
  }

  ghost function ConnectedIds(peers: seq<Peer>): set<NodeId> {
    set p | p in peers && p.state == Connected :: p.id
  }

  ghost function LiveIds(peers: seq<Peer>, now: uint64): set<NodeId> {
    set p | p in peers && PeerIsAlive(p, now) :: p.id
  }

  /** What topology_add_peer and activate_neighbor guarantee of the peer list. */
  ghost predicate ValidPeers(network: IPv6, peers: seq<Peer>) {
    && (forall p | p in peers :: p.id != EMPTY_NODE_ID && p.virtualAddress == VirtualAddress(network, p.id))
    && forall i, j | 0 <= i < j < |peers| :: peers[i].id != peers[j].id
  }

  /** Stored advertisements passed validation, name each destination once, and are filed under their sender. */
  ghost predicate ValidStore(network: IPv6, store: Store) {
    forall n | n in store ::
      && store[n].advertisement.sender == n
      && Sound(network, store[n].advertisement.routes)
  }

  // ---------- the order in which neighbours are folded ----------

  ghost predicate StrictlySorted(ids: seq<NodeId>) {
    forall i, j | 0 <= i < j < |ids| :: NodeLess(ids[i], ids[j])
  }

  ghost predicate Enumerates(ids: seq<NodeId>, s: set<NodeId>) {
    && (forall x :: x in ids <==> x in s)
    && forall i, j | 0 <= i < j < |ids| :: ids[i] != ids[j]
  }

  function InsertId(ids: seq<NodeId>, x: NodeId): (r: seq<NodeId>)
    ensures forall y :: y in r <==> y in ids || y == x
  {
    if ids == [] || NodeLess(x, ids[0]) then [x] + ids else [ids[0]] + InsertId(ids[1..], x)
  }

  lemma {:induction false} InsertIdSorted(ids: seq<NodeId>, x: NodeId)
    requires StrictlySorted(ids) && x !in ids
    ensures StrictlySorted(InsertId(ids, x))
  {
    if ids != [] && !NodeLess(x, ids[0]) {
      NodeOrderTotal();
      var rest := InsertId(ids[1..], x);
      InsertIdSorted(ids[1..], x);
      forall y | y in rest ensures NodeLess(ids[0], y) {}
    }
  }

  lemma {:induction false} SortedOnce(a: seq<NodeId>, b: seq<NodeId>)
    requires StrictlySorted(a) && StrictlySorted(b) && forall x :: x in a <==> x in b
    ensures a == b
  {
    assert b != [] ==> b[0] in a;
    if a != [] {
      assert a[0] in b;
      assert a[0] == b[0];
      forall x ensures x in a[1..] <==> x in b[1..] {
        if x in a[1..] {
          assert x in b;
        }
        if x in b[1..] {
          assert x in a;
        }
      }
      SortedOnce(a[1..], b[1..]);
    }
  }

  lemma {:induction false} SortedExists(s: set<NodeId>)
    ensures exists ids :: StrictlySorted(ids) && Enumerates(ids, s)
  {
    if s == {} {
      assert StrictlySorted([]) && Enumerates([], s);
    } else {
      var x :| x in s;
      SortedExists(s - {x});
      var rest :| StrictlySorted(rest) && Enumerates(rest, s - {x});
      InsertIdSorted(rest, x);
      assert Enumerates(InsertId(rest, x), s);
    }
  }

  ghost function SortedIds(s: set<NodeId>): (ids: seq<NodeId>)
    ensures StrictlySorted(ids) && Enumerates(ids, s)
  {
    SortedExists(s);
    var ids :| StrictlySorted(ids) && Enumerates(ids, s);
    ids
  }

  // ---------- rebuild_routing_table on values ----------

  function Direct(peers: seq<Peer>, now: uint64): seq<Route> {
    if peers == [] then []
    else
      var init, p := Direct(peers[..|peers| - 1], now), peers[|peers| - 1];
      if PeerIsAlive(p, now) then Added(init, Route(p.virtualAddress, p.id, p.id, 1, now)).0 else init
  }

  function Fold(routes: seq<Route>, ids: seq<NodeId>, store: Store, now: uint64): seq<Route>
    requires forall n | n in ids :: n in store
  {
    if ids == [] then routes
    else
      var rs, n := Fold(routes, ids[..|ids| - 1], store, now), ids[|ids| - 1];
      if store[n].advertisement.sender == n then Apply(rs, n, store[n].advertisement.routes, now, 1).0 else rs
  }

  lemma DirectNext(peers: seq<Peer>, i: nat, now: uint64)
    requires i < |peers|
    ensures var rs, p := Direct(peers[..i], now), peers[i];
            Direct(peers[..i + 1], now)
            == if PeerIsAlive(p, now) then Added(rs, Route(p.virtualAddress, p.id, p.id, 1, now)).0 else rs
  {
    OneFurther(peers, i);
    Appended(peers[..i], peers[i]);
  }

  lemma FoldNext(routes: seq<Route>, ids: seq<NodeId>, k: nat, store: Store, now: uint64)
    requires k < |ids| && forall n | n in ids :: n in store
    ensures var rs, n := Fold(routes, ids[..k], store, now), ids[k];
            Fold(routes, ids[..k + 1], store, now)
            == if store[n].advertisement.sender == n
               then Apply(rs, n, store[n].advertisement.routes, now, 1).0 else rs
  {
    OneFurther(ids, k);
    Appended(ids[..k], ids[k]);
  }

  /** Advertisements of Connected peers take part even when the peer is stale. */
  ghost function Neighbors(peers: seq<Peer>, store: Store): set<NodeId> {
    set n | n in store && n in ConnectedIds(peers)
  }

  ghost function Rebuilt(peers: seq<Peer>, store: Store, now: uint64): seq<Route> {
    Fold(Direct(peers, now), SortedIds(Neighbors(peers, store)), store, now)
  }

  // ---------- the declarative reading: lexicographic minimum over candidates ----------

  function Offer(store: Store, n: NodeId, d: NodeId): Option<uint32>
    requires n in store
  {
    match View(store[n].advertisement.routes, d)
    case None => None
    case Some(a) => if a.metric + 1 < ROUTE_METRIC_INFINITY then Some(a.metric + 1) else None
  }

  /** e is a way to d: the direct link, or through a neighbour of ids that offers d below infinity. */
  ghost predicate Candidate(live: set<NodeId>, store: Store, ids: set<NodeId>, d: NodeId, e: Entry) {
    || (d in live && e == Entry(1, d))
    || (e.nextHop in ids && e.nextHop in store && e.nextHop != d && Offer(store, e.nextHop, d) == Some(e.metric))
  }

  ghost predicate IsBest(r: Option<Entry>, live: set<NodeId>, store: Store, ids: set<NodeId>, d: NodeId) {
    match r
    case None => forall e :: !Candidate(live, store, ids, d, e)
    case Some(b) => Candidate(live, store, ids, d, b) && forall e | Candidate(live, store, ids, d, e) :: !Better(e, b)
  }

  lemma BestUnique(r: Option<Entry>, r': Option<Entry>, live: set<NodeId>, store: Store, ids: set<NodeId>, d: NodeId)
    requires IsBest(r, live, store, ids, d) && IsBest(r', live, store, ids, d)
    ensures r == r'
  {
    if r.Some? && r'.Some? {
      ValueInjective(r.value.nextHop, r'.value.nextHop);
    }
  }

  ghost function Mentioned(store: Store): set<NodeId> {
    set n, r | n in store && r in store[n].advertisement.routes :: r.destinationNode
  }

  /** The destinations that have a candidate at all. */
  ghost function Destinations(live: set<NodeId>, store: Store, ids: set<NodeId>): set<NodeId> {
    set d | d in live + Mentioned(store) && exists e :: Candidate(live, store, ids, d, e)
  }

  lemma CandidateIsDestination(live: set<NodeId>, store: Store, ids: set<NodeId>, d: NodeId, e: Entry)
    requires Candidate(live, store, ids, d, e)
    ensures d in Destinations(live, store, ids)
  {
    if d !in live {
      var routes := store[e.nextHop].advertisement.routes;
      assert routes[IndexOf(routes, d)] in routes;
    }
  }

  /** The table holds exactly a direct route to every live peer. */
  ghost predicate ShowsLive(network: IPv6, rs: seq<Route>, live: set<NodeId>, universe: set<NodeId>) {
    && Sound(network, rs) && Nodes(rs) <= universe
    && forall d: NodeId :: View(rs, d) == if d in live then Some(Entry(1, d)) else None
  }

  lemma OneMoreLive(network: IPv6, rs: seq<Route>, p: Peer, live: set<NodeId>, now: uint64, universe: set<NodeId>)
    requires ShowsLive(network, rs, live, universe) && p.id != EMPTY_NODE_ID
    requires p.virtualAddress == VirtualAddress(network, p.id)
    requires p.id in universe && |universe| <= MAX_ROUTE_TABLE_ENTRIES
    ensures ShowsLive(network, Added(rs, Route(p.virtualAddress, p.id, p.id, 1, now)).0, live + {p.id}, universe)
  {
    var r := Route(p.virtualAddress, p.id, p.id, 1, now);
    if View(rs, p.id).None? {
      RoomForMissing(rs, universe, p.id);
    }
    AddRouteView(network, rs, r);
    StillWithin(rs, Added(rs, r).0, p.id, universe);
  }

  lemma {:induction false} DirectView(network: IPv6, peers: seq<Peer>, now: uint64, universe: set<NodeId>)
    requires ValidPeers(network, peers)
    requires LiveIds(peers, now) <= universe && |universe| <= MAX_ROUTE_TABLE_ENTRIES
    ensures ShowsLive(network, Direct(peers, now), LiveIds(peers, now), universe)
  {
    if peers != [] {
      var init, p := peers[..|peers| - 1], peers[|peers| - 1];
      Split(peers);
      assert LiveIds(peers, now) == LiveIds(init, now) + if PeerIsAlive(p, now) then {p.id} else {};
      DirectView(network, init, now, universe);
      if PeerIsAlive(p, now) {
        OneMoreLive(network, Direct(init, now), p, LiveIds(init, now), now, universe);
      }
    }
  }

  /** One more neighbour: PointUpdate carries the minimum over ids to the minimum over ids plus that neighbour. */
  lemma BestStep(held: Option<Entry>, live: set<NodeId>, store: Store, ids: set<NodeId>, n: NodeId, d: NodeId)
    requires IsBest(held, live, store, ids, d) && n in store && n !in ids
    ensures IsBest(PointUpdate(held, View(store[n].advertisement.routes, d), n, d, 1), live, store, ids + {n}, d)
  {
    if n != d && Offer(store, n, d).Some? {
      OfferedStep(held, live, store, ids, n, d, Offer(store, n, d).value);
      OfferIsTaken(held, store, n, d, Offer(store, n, d).value);
    } else {
      CandidatesGrow(live, store, ids, n, d);
      SameCandidates(held, live, store, ids, ids + {n}, d);
      NothingTaken(held, live, store, ids, n, d);
    }
  }

  lemma OfferIsTaken(held: Option<Entry>, store: Store, n: NodeId, d: NodeId, m: uint32)
    requires n in store && n != d && Offer(store, n, d) == Some(m) && (held.Some? ==> held.value.nextHop != n)
    ensures PointUpdate(held, View(store[n].advertisement.routes, d), n, d, 1) == Some(Preferred(held, Entry(m, n)))
  {
  }

  lemma NothingTaken(held: Option<Entry>, live: set<NodeId>, store: Store, ids: set<NodeId>, n: NodeId, d: NodeId)
    requires IsBest(held, live, store, ids, d) && n in store && n !in ids && (n == d || Offer(store, n, d).None?)
    ensures PointUpdate(held, View(store[n].advertisement.routes, d), n, d, 1) == held
  {
  }

  lemma SameCandidates(r: Option<Entry>, live: set<NodeId>, store: Store, ids: set<NodeId>, ids': set<NodeId>,
                       d: NodeId)
    requires IsBest(r, live, store, ids, d)
    requires forall e :: Candidate(live, store, ids', d, e) <==> Candidate(live, store, ids, d, e)
    ensures IsBest(r, live, store, ids', d)
  {
  }

  lemma CandidatesGrow(live: set<NodeId>, store: Store, ids: set<NodeId>, n: NodeId, d: NodeId)
    requires n in store && n !in ids
    ensures forall e :: Candidate(live, store, ids + {n}, d, e) <==>
                        || Candidate(live, store, ids, d, e)
                        || (n != d && e.nextHop == n && Offer(store, n, d) == Some(e.metric))
  {
  }

  lemma OfferedStep(held: Option<Entry>, live: set<NodeId>, store: Store, ids: set<NodeId>, n: NodeId, d: NodeId,
                    m: uint32)
    requires IsBest(held, live, store, ids, d) && n in store && n !in ids && n != d && Offer(store, n, d) == Some(m)
    ensures IsBest(Some(Preferred(held, Entry(m, n))), live, store, ids + {n}, d)
  {
    CandidatesGrow(live, store, ids, n, d);
    assert Candidate(live, store, ids + {n}, d, Entry(m, n));
    assert Better(Entry(m, n), Entry(m, n)) == false;
  }

  lemma OffersFit(routes: seq<Route>, live: set<NodeId>, ids: set<NodeId>, store: Store, n: NodeId,
                  universe: set<NodeId>)
    requires n in ids && n in store && UniqueNodes(store[n].advertisement.routes) && Nodes(routes) <= universe
    requires |universe| <= MAX_ROUTE_TABLE_ENTRIES && Destinations(live, store, ids) <= universe
    ensures Fits(routes, n, store[n].advertisement.routes, 1, universe)
  {
    var advertised := store[n].advertisement.routes;
    forall a | a in advertised && a.destinationNode != n && LinkMetric(1, a.metric) < ROUTE_METRIC_INFINITY
      ensures a.destinationNode in universe
    {
      ViewOfMember(advertised, a);
      CandidateIsDestination(live, store, ids, a.destinationNode, Entry(a.metric + 1, n));
    }
  }

  lemma {:induction false} FoldBest(network: IPv6, routes: seq<Route>, live: set<NodeId>, ids: seq<NodeId>,
                                    store: Store, now: uint64, universe: set<NodeId>)
    requires ValidStore(network, store) && (forall n | n in ids :: n in store)
    requires forall i, j | 0 <= i < j < |ids| :: ids[i] != ids[j]
    requires Sound(network, routes) && Nodes(routes) <= universe
    requires forall d: NodeId :: IsBest(View(routes, d), live, store, {}, d)
    requires |universe| <= MAX_ROUTE_TABLE_ENTRIES && Destinations(live, store, (set n | n in ids)) <= universe
    ensures var rs := Fold(routes, ids, store, now);
            && Sound(network, rs) && Nodes(rs) <= universe
            && forall d: NodeId :: IsBest(View(rs, d), live, store, (set n | n in ids), d)
  {
    if ids == [] {
      assert (set n | n in ids) == {};
    } else {
      var init, n := ids[..|ids| - 1], ids[|ids| - 1];
      assert ids == init + [n];
      var before, after := (set x | x in init), (set x | x in ids);
      assert after == before + {n};
      DestinationsMonotone(live, store, before, after);
      FoldBest(network, routes, live, init, store, now, universe);
      var rs, advertised := Fold(routes, init, store, now), store[n].advertisement.routes;
      OffersFit(rs, live, after, store, n, universe);
      ApplyView(network, rs, n, advertised, now, 1, universe);
      forall d: NodeId ensures IsBest(View(Fold(routes, ids, store, now), d), live, store, after, d) {
        BestStep(View(rs, d), live, store, before, n, d);
      }
    }
  }

  lemma DestinationsMonotone(live: set<NodeId>, store: Store, ids: set<NodeId>, more: set<NodeId>)
    requires ids <= more
    ensures Destinations(live, store, ids) <= Destinations(live, store, more)
  {
    forall d | d in Destinations(live, store, ids) ensures d in Destinations(live, store, more) {
      var e :| Candidate(live, store, ids, d, e);
      assert Candidate(live, store, more, d, e);
    }
  }

  // ---------- the rebuilt table is the minimum, exactly while every reachable destination fits ----------

  lemma {:induction false} FoldKeepsSound(network: IPv6, routes: seq<Route>, ids: seq<NodeId>, store: Store,
                                          now: uint64)
    requires ValidStore(network, store) && (forall n | n in ids :: n in store)
    requires Sound(network, routes) && |routes| <= MAX_ROUTE_TABLE_ENTRIES
    ensures Sound(network, Fold(routes, ids, store, now)) && |Fold(routes, ids, store, now)| <= MAX_ROUTE_TABLE_ENTRIES
  {
    if ids != [] {
      var init, n := ids[..|ids| - 1], ids[|ids| - 1];
      assert n in ids;
      FoldKeepsSound(network, routes, init, store, now);
      ApplyKeepsSound(network, Fold(routes, init, store, now), n, store[n].advertisement.routes, now, 1);
    }
  }

  lemma {:induction false} DirectKeepsSound(network: IPv6, peers: seq<Peer>, now: uint64)
    requires ValidPeers(network, peers)
    ensures Sound(network, Direct(peers, now)) && |Direct(peers, now)| <= MAX_ROUTE_TABLE_ENTRIES
  {
    if peers != [] {
      var init, p := peers[..|peers| - 1], peers[|peers| - 1];
      assert peers == init + [p];
      DirectKeepsSound(network, init, now);
      var rs := Direct(init, now);
      if View(rs, p.id).Some? || |rs| < MAX_ROUTE_TABLE_ENTRIES {
        AddRouteView(network, rs, Route(p.virtualAddress, p.id, p.id, 1, now));
      } else {
        FindSameIsIndexOf(rs, Route(p.virtualAddress, p.id, p.id, 1, now));
      }
    }
  }

  lemma DirectIsBest(network: IPv6, peers: seq<Peer>, store: Store, ids: set<NodeId>, now: uint64,
                     universe: set<NodeId>)
    requires ValidPeers(network, peers) && |universe| <= MAX_ROUTE_TABLE_ENTRIES
    requires universe == Destinations(LiveIds(peers, now), store, ids)
    ensures var rs := Direct(peers, now);
            && Sound(network, rs) && Nodes(rs) <= universe
            && forall d: NodeId :: IsBest(View(rs, d), LiveIds(peers, now), store, {}, d)
  {
    var live := LiveIds(peers, now);
    forall d | d in live ensures d in universe {
      CandidateIsDestination(live, store, ids, d, Entry(1, d));
    }
    DirectView(network, peers, now, universe);
  }

  /** The rebuilt table, in whatever order ids lists the neighbours. */
  lemma RebuiltInOrder(network: IPv6, peers: seq<Peer>, store: Store, ids: seq<NodeId>, now: uint64)
    requires ValidPeers(network, peers) && ValidStore(network, store) && Enumerates(ids, Neighbors(peers, store))
    ensures var rs := Fold(Direct(peers, now), ids, store, now);
            && Sound(network, rs)
            && |rs| <= MAX_ROUTE_TABLE_ENTRIES
            && ((forall d: NodeId :: IsBest(View(rs, d), LiveIds(peers, now), store, Neighbors(peers, store), d)) <==>
                |Destinations(LiveIds(peers, now), store, Neighbors(peers, store))| <= MAX_ROUTE_TABLE_ENTRIES)
  {
    var live, neighbors := LiveIds(peers, now), Neighbors(peers, store);
    var universe := Destinations(live, store, neighbors);
    var rs := Fold(Direct(peers, now), ids, store, now);
    DirectKeepsSound(network, peers, now);
    FoldKeepsSound(network, Direct(peers, now), ids, store, now);
    assert (set n | n in ids) == neighbors;
    if |universe| <= MAX_ROUTE_TABLE_ENTRIES {
      DirectIsBest(network, peers, store, neighbors, now, universe);
      FoldBest(network, Direct(peers, now), live, ids, store, now, universe);
    } else if forall d: NodeId :: IsBest(View(rs, d), live, store, neighbors, d) {
      forall d | d in universe ensures d in Nodes(rs) {
        assert IsBest(View(rs, d), live, store, neighbors, d);
        ViewIffNode(rs, d);
      }
      SubsetSize(universe, Nodes(rs));
      NodesSize(rs);
    }
  }

  /** rebuild_routing_table installs, for every destination, the least (metric, next hop) over the direct link and all
      neighbours' offers, and nothing else, if and only if the destinations that have an offer fit the 16 slots. */
  lemma RebuiltIsArgmin(network: IPv6, peers: seq<Peer>, store: Store, now: uint64)
    requires ValidPeers(network, peers) && ValidStore(network, store)
    ensures Sound(network, Rebuilt(peers, store, now)) && |Rebuilt(peers, store, now)| <= MAX_ROUTE_TABLE_ENTRIES
    ensures (forall d: NodeId ::
               IsBest(View(Rebuilt(peers, store, now), d), LiveIds(peers, now), store, Neighbors(peers, store), d)) <==>
            |Destinations(LiveIds(peers, now), store, Neighbors(peers, store))| <= MAX_ROUTE_TABLE_ENTRIES
  {
    RebuiltInOrder(network, peers, store, SortedIds(Neighbors(peers, store)), now);
  }

  /** What peer list and files say about a way to d, in plain terms: a direct link of metric 1 to a Connected peer heard
      from within the last 5000 milliseconds, or one hop more than a Connected peer advertises, below 16. */
  ghost predicate Way(peers: seq<Peer>, store: Store, now: uint64, d: NodeId, metric: nat, hop: NodeId) {
    || (&& metric == 1 && hop == d
        && exists p :: p in peers && p.id == d && p.state == Connected && 0 < p.lastSeen <= now <= p.lastSeen + 5000)
    || (&& hop != d && hop in store && (exists p :: p in peers && p.id == hop && p.state == Connected)
        && exists r :: r in store[hop].advertisement.routes && r.destinationNode == d && metric == r.metric + 1 < 16)
  }

  lemma OfferIsAdvertised(network: IPv6, store: Store, n: NodeId, d: NodeId, metric: nat)
    requires ValidStore(network, store) && n in store
    ensures Offer(store, n, d).Some? && Offer(store, n, d).value == metric
            <==> exists r :: r in store[n].advertisement.routes && r.destinationNode == d && metric == r.metric + 1 < 16
  {
    var routes := store[n].advertisement.routes;
    var i := IndexOf(routes, d);
    if i < |routes| {
      assert routes[i] in routes;
    }
    if r :| r in routes && r.destinationNode == d {
      ViewOfMember(routes, r);
    }
  }

  lemma WayIsCandidate(network: IPv6, peers: seq<Peer>, store: Store, now: uint64, d: NodeId, e: Entry)
    requires ValidStore(network, store)
    ensures Way(peers, store, now, d, e.metric, e.nextHop)
            <==> Candidate(LiveIds(peers, now), store, Neighbors(peers, store), d, e)
  {
    if e.nextHop in store {
      OfferIsAdvertised(network, store, e.nextHop, d, e.metric);
    }
  }

  /** The destinations that can be reached at all are among those of the universe. */
  ghost predicate WaysWithin(peers: seq<Peer>, store: Store, now: uint64, universe: set<NodeId>) {
    forall d: NodeId, e: Entry :: Way(peers, store, now, d, e.metric, e.nextHop) ==> d in universe
  }

  lemma WaysFit(network: IPv6, peers: seq<Peer>, store: Store, now: uint64, universe: set<NodeId>)
    requires ValidStore(network, store) && WaysWithin(peers, store, now, universe)
    ensures |Destinations(LiveIds(peers, now), store, Neighbors(peers, store))| <= |universe|
  {
    var destinations := Destinations(LiveIds(peers, now), store, Neighbors(peers, store));
    forall d | d in destinations ensures d in universe {
      var e :| Candidate(LiveIds(peers, now), store, Neighbors(peers, store), d, e);
      WayIsCandidate(network, peers, store, now, d, e);
    }
    SubsetSize(destinations, universe);
  }

  /** The rebuilt route is a way of least metric and among those the one through the least identifier; without a way
      there is none. */
  ghost predicate LeastWay(peers: seq<Peer>, store: Store, now: uint64, d: NodeId, v: Option<Entry>) {
    match v
    case None => forall e: Entry :: !Way(peers, store, now, d, e.metric, e.nextHop)
    case Some(b) =>
      && Way(peers, store, now, d, b.metric, b.nextHop)
      && forall e: Entry | Way(peers, store, now, d, e.metric, e.nextHop) ::
           b.metric < e.metric || (b.metric == e.metric && Value(b.nextHop) <= Value(e.nextHop))
  }

  /** rebuild_routing_table in terms of peers, files and clock alone. */
  lemma RebuiltIsLeastWay(network: IPv6, peers: seq<Peer>, store: Store, now: uint64, universe: set<NodeId>, d: NodeId)
    requires ValidPeers(network, peers) && ValidStore(network, store)
    requires WaysWithin(peers, store, now, universe) && |universe| <= 16
    ensures LeastWay(peers, store, now, d, View(Rebuilt(peers, store, now), d))
  {
    WaysFit(network, peers, store, now, universe);
    RebuiltIsArgmin(network, peers, store, now);
    assert IsBest(View(Rebuilt(peers, store, now), d), LiveIds(peers, now), store, Neighbors(peers, store), d);
    forall e: Entry
      ensures Way(peers, store, now, d, e.metric, e.nextHop)
              <==> Candidate(LiveIds(peers, now), store, Neighbors(peers, store), d, e)
    {
      WayIsCandidate(network, peers, store, now, d, e);
    }
  }

  /** The ids of the Connected peers heard from within the last 5000 milliseconds. */
  ghost function HeardLately(peers: seq<Peer>, now: uint64): set<NodeId> {
    set p | p in peers && p.state == Connected && 0 < p.lastSeen <= now <= p.lastSeen + 5000 :: p.id
  }

  /** With nothing on file there is a direct route to exactly the peers heard from lately: silence of more than 5000
      milliseconds costs a peer its route. */
  lemma SilentPeersGetNoRoute(network: IPv6, peers: seq<Peer>, now: uint64, d: NodeId)
    requires ValidPeers(network, peers) && |HeardLately(peers, now)| <= 16
    ensures View(Rebuilt(peers, map[], now), d) == if d in HeardLately(peers, now) then Some(Entry(1, d)) else None
  {
    assert WaysWithin(peers, map[], now, HeardLately(peers, now));
    RebuiltIsLeastWay(network, peers, map[], now, HeardLately(peers, now), d);
    if d in HeardLately(peers, now) {
      assert Way(peers, map[], now, d, Entry(1, d).metric, Entry(1, d).nextHop);
    }
  }

  lemma MentionedWithin(store: Store, universe: set<NodeId>)
    requires forall n | n in store :: Nodes(store[n].advertisement.routes) <= universe
    ensures Mentioned(store) <= universe
  {
    forall d | d in Mentioned(store) ensures d in universe {
      var n, r :| n in store && r in store[n].advertisement.routes && r.destinationNode == d;
      assert d in Nodes(store[n].advertisement.routes);
    }
  }

  /** With at most 16 possible destinations the rebuilt table is always the minimum. */
  lemma RebuiltWithin(network: IPv6, peers: seq<Peer>, store: Store, now: uint64, universe: set<NodeId>)
    requires ValidPeers(network, peers) && ValidStore(network, store)
    requires LiveIds(peers, now) <= universe && Mentioned(store) <= universe && |universe| <= MAX_ROUTE_TABLE_ENTRIES
    ensures Sound(network, Rebuilt(peers, store, now)) && Nodes(Rebuilt(peers, store, now)) <= universe
    ensures forall d: NodeId ::
              IsBest(View(Rebuilt(peers, store, now), d), LiveIds(peers, now), store, Neighbors(peers, store), d)
  {
    var live, ids, rs := LiveIds(peers, now), Neighbors(peers, store), Rebuilt(peers, store, now);
    SubsetSize(Destinations(live, store, ids), universe);
    RebuiltIsArgmin(network, peers, store, now);
    forall d | d in Nodes(rs) ensures d in universe {
      ViewIffNode(rs, d);
      assert IsBest(View(rs, d), live, store, ids, d);
      CandidateIsDestination(live, store, ids, d, View(rs, d).value);
    }
  }

  /** The loop over neighbours may visit them in any order. */
  lemma RebuildOrderIrrelevant(network: IPv6, peers: seq<Peer>, store: Store, ids: seq<NodeId>, now: uint64)
    requires ValidPeers(network, peers) && ValidStore(network, store) && Enumerates(ids, Neighbors(peers, store))
    requires |Destinations(LiveIds(peers, now), store, Neighbors(peers, store))| <= MAX_ROUTE_TABLE_ENTRIES
    ensures forall d: NodeId ::
            View(Fold(Direct(peers, now), ids, store, now), d) == View(Rebuilt(peers, store, now), d)
  {
    var live, neighbors := LiveIds(peers, now), Neighbors(peers, store);
    RebuiltInOrder(network, peers, store, ids, now);
    RebuiltIsArgmin(network, peers, store, now);
    forall d: NodeId
      ensures View(Fold(Direct(peers, now), ids, store, now), d) == View(Rebuilt(peers, store, now), d)
    {
      BestUnique(View(Fold(Direct(peers, now), ids, store, now), d), View(Rebuilt(peers, store, now), d),
                 live, store, neighbors, d);
    }
  }

  lemma {:induction false} NodesSize(routes: seq<Route>)
    ensures |Nodes(routes)| <= |routes|
  {
    if routes != [] {
      var init, last := routes[..|routes| - 1], routes[|routes| - 1];
      assert routes == init + [last];
      assert Nodes(routes) == Nodes(init) + {last.destinationNode};
      NodesSize(init);
    }
  }

  lemma {:induction false} SubsetSize<T>(a: set<T>, b: set<T>)
    requires a <= b
    ensures |a| <= |b|
  {
    if a != {} {
      var x :| x in a;
      SubsetSize(a - {x}, b - {x});
    }
  }

  // ---------- "changed" is exact ----------

  ghost predicate SameView(a: seq<Route>, b: seq<Route>) {
    forall d: NodeId :: View(a, d) == View(b, d)
  }

  /** Replacing n's offer: the held minimum survives PointUpdate exactly if it is the new minimum. */
  lemma QuietAt(held: Option<Entry>, live: set<NodeId>, store: Store, store': Store, ids: set<NodeId>,
                ids': set<NodeId>, n: NodeId, d: NodeId)
    requires n in store' && ids' == ids + {n}
    requires forall x | x != n :: (x in store <==> x in store') && (x in store ==> store[x] == store'[x])
    requires IsBest(held, live, store, ids, d)
    ensures PointUpdate(held, View(store'[n].advertisement.routes, d), n, d, 1) == held <==>
            IsBest(held, live, store', ids', d)
  {
    forall e: Entry ensures SameBut(live, store, store', ids, ids', n, d, e) {}
    if IsBest(held, live, store', ids', d) {
      BestIsQuiet(held, live, store, store', ids, ids', n, d);
    }
    if PointUpdate(held, View(store'[n].advertisement.routes, d), n, d, 1) == held {
      QuietIsBest(held, live, store, store', ids, ids', n, d);
    }
  }

  /** Apart from what n offers, the candidates are the same. */
  ghost predicate SameBut(live: set<NodeId>, store: Store, store': Store, ids: set<NodeId>, ids': set<NodeId>,
                          n: NodeId, d: NodeId, e: Entry) {
    e.nextHop != n || n == d ==> (Candidate(live, store, ids, d, e) <==> Candidate(live, store', ids', d, e))
  }

  lemma QuietIsBest(held: Option<Entry>, live: set<NodeId>, store: Store, store': Store,
                    ids: set<NodeId>, ids': set<NodeId>, n: NodeId, d: NodeId)
    requires n in store' && n in ids' && IsBest(held, live, store, ids, d)
    requires forall e: Entry :: SameBut(live, store, store', ids, ids', n, d, e)
    requires PointUpdate(held, View(store'[n].advertisement.routes, d), n, d, 1) == held
    ensures IsBest(held, live, store', ids', d)
  {
    if held.Some? {
      assert SameBut(live, store, store', ids, ids', n, d, held.value);
    }
    forall e | Candidate(live, store', ids', d, e) ensures held.Some? && !Better(e, held.value) {
      assert SameBut(live, store, store', ids, ids', n, d, e);
    }
  }

  lemma BestIsQuiet(held: Option<Entry>, live: set<NodeId>, store: Store, store': Store,
                    ids: set<NodeId>, ids': set<NodeId>, n: NodeId, d: NodeId)
    requires n in store' && n in ids' && IsBest(held, live, store', ids', d)
    ensures PointUpdate(held, View(store'[n].advertisement.routes, d), n, d, 1) == held
  {
    if n != d && Offer(store', n, d).Some? {
      assert Candidate(live, store', ids', d, Entry(Offer(store', n, d).value, n));
    }
  }

  /** If the live table shows what a rebuild would, apply_routes reports a change exactly if a rebuild with the new
      advertisement stored would show something else. */
  lemma ChangedIsExact(network: IPv6, peers: seq<Peer>, store: Store, routes: seq<Route>, n: NodeId,
                       stored: StoredAdvertisement, at: uint64, now: uint64)
    requires ValidPeers(network, peers) && ValidStore(network, store) && Sound(network, routes)
    requires n in ConnectedIds(peers) && ValidStore(network, store[n := stored])
    requires |Destinations(LiveIds(peers, now), store, Neighbors(peers, store))| <= MAX_ROUTE_TABLE_ENTRIES
    requires |Destinations(LiveIds(peers, now), store[n := stored], Neighbors(peers, store[n := stored]))|
             <= MAX_ROUTE_TABLE_ENTRIES
    requires SameView(routes, Rebuilt(peers, store, now))
    ensures Apply(routes, n, stored.advertisement.routes, at, 1).1 <==>
            !SameView(Rebuilt(peers, store[n := stored], now), Rebuilt(peers, store, now))
  {
    var store' := store[n := stored];
    var live, ids, ids' := LiveIds(peers, now), Neighbors(peers, store), Neighbors(peers, store');
    var advertised := stored.advertisement.routes;
    var rebuilt, rebuilt' := Rebuilt(peers, store, now), Rebuilt(peers, store', now);
    assert ids' == ids + {n};
    RebuiltIsArgmin(network, peers, store, now);
    RebuiltIsArgmin(network, peers, store', now);
    ChangedIff(network, routes, n, advertised, at, 1);
    forall d: NodeId ensures UpdateShows(routes, n, advertised, rebuilt', d) {
      QuietAt(View(routes, d), live, store, store', ids, ids', n, d);
      if IsBest(View(routes, d), live, store', ids', d) {
        BestUnique(View(routes, d), View(rebuilt', d), live, store', ids', d);
      }
    }
    if Apply(routes, n, advertised, at, 1).1 {
      var d: NodeId :| Updates(routes, n, advertised, 1, d);
      assert UpdateShows(routes, n, advertised, rebuilt', d);
      assert View(routes, d) == View(rebuilt, d);
    }
    if !SameView(rebuilt', rebuilt) {
      var d: NodeId :| View(rebuilt', d) != View(rebuilt, d);
      assert View(routes, d) == View(rebuilt, d);
      DifferenceIsUpdate(routes, n, advertised, rebuilt', live, store', ids', d);
    }
  }

  /** An update is due at d exactly if the new rebuild differs there from the table. */
  ghost predicate UpdateShows(routes: seq<Route>, n: NodeId, advertised: seq<Route>, rebuilt: seq<Route>, d: NodeId) {
    PointUpdate(View(routes, d), View(advertised, d), n, d, 1) == View(routes, d) <==>
        View(rebuilt, d) == View(routes, d)
  }

  lemma DifferenceIsUpdate(routes: seq<Route>, n: NodeId, advertised: seq<Route>, rebuilt: seq<Route>,
                           live: set<NodeId>, store: Store, ids: set<NodeId>, d: NodeId)
    requires UniqueNodes(routes) && |Destinations(live, store, ids)| <= MAX_ROUTE_TABLE_ENTRIES
    requires forall x: NodeId :: IsBest(View(rebuilt, x), live, store, ids, x)
    requires forall x: NodeId :: UpdateShows(routes, n, advertised, rebuilt, x)
    requires View(rebuilt, d) != View(routes, d)
    ensures exists x: NodeId :: Updates(routes, n, advertised, 1, x)
  {
    assert UpdateShows(routes, n, advertised, rebuilt, d);
    if x: NodeId :| View(routes, x).Some? && View(rebuilt, x).None? {
      assert UpdateShows(routes, n, advertised, rebuilt, x);
      assert Updates(routes, n, advertised, 1, x);
    } else {
      if View(routes, d).None? {
        NewDestinationFits(routes, rebuilt, live, store, ids, d);
      }
      assert Updates(routes, n, advertised, 1, d);
    }
  }

  lemma NewDestinationFits(routes: seq<Route>, rebuilt: seq<Route>, live: set<NodeId>, store: Store, ids: set<NodeId>,
                           d: NodeId)
    requires UniqueNodes(routes) && |Destinations(live, store, ids)| <= MAX_ROUTE_TABLE_ENTRIES
    requires forall x: NodeId :: IsBest(View(rebuilt, x), live, store, ids, x)
    requires forall x: NodeId | View(routes, x).Some? :: View(rebuilt, x).Some?
    requires View(routes, d).None? && View(rebuilt, d).Some?
    ensures |routes| < MAX_ROUTE_TABLE_ENTRIES
  {
    var universe := Destinations(live, store, ids);
    forall x: NodeId | View(rebuilt, x).Some? ensures x in universe {
      CandidateIsDestination(live, store, ids, x, View(rebuilt, x).value);
    }
    forall x | x in Nodes(routes) ensures x in universe {
      ViewIffNode(routes, x);
    }
    RoomForMissing(routes, universe, d);
  }
}
