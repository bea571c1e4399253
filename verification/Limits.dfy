/** How far the routing theorems reach, by example: what more than 16 destinations do to a rebuild, and that 15 rounds
    are not enough to stabilise. */
module Limits {
  import opened Bytes
  import opened Routing
  import opened DistanceVector
  import opened Rebuild
  import opened Daemon
  import opened Graph
  import opened Network
  import opened Convergence
  import opened Stabilisation

  // ---------- a table that is full refuses whoever comes second ----------

  /** An advertisement of sixteen destinations, all one hop from the sender. */
  ghost predicate Block(network: IPv6, routes: seq<Route>) {
    Sound(network, routes) && |Nodes(routes)| == MAX_ROUTE_TABLE_ENTRIES && forall r | r in routes :: r.metric == 1
  }

  lemma BlockView(network: IPv6, routes: seq<Route>, d: NodeId)
    requires Block(network, routes)
    ensures if d in Nodes(routes)
            then View(routes, d).Some? && View(routes, d).value.metric == 1 else View(routes, d).None?
  {
    ViewIffNode(routes, d);
    if View(routes, d).Some? {
      assert routes[IndexOf(routes, d)] in routes;
    }
  }

  /** Sixteen destinations heard first fill the table. */
  lemma FirstFills(network: IPv6, n: NodeId, advertised: seq<Route>, now: uint64)
    requires Block(network, advertised) && n !in Nodes(advertised)
    ensures var rs := Apply([], n, advertised, now, 1).0;
            && Sound(network, rs) && |rs| == MAX_ROUTE_TABLE_ENTRIES
            && forall d: NodeId :: View(rs, d) == if d in Nodes(advertised) then Some(Entry(2, n)) else None
  {
    var rs := Apply([], n, advertised, now, 1).0;
    assert Nodes([]) == {};
    ApplyView(network, [], n, advertised, now, 1, Nodes(advertised));
    forall d: NodeId ensures View(rs, d) == if d in Nodes(advertised) then Some(Entry(2, n)) else None {
      assert View([], d) == None;
      BlockView(network, advertised, d);
    }
    forall d | d in Nodes(advertised) ensures d in Nodes(rs) {
      ViewIffNode(rs, d);
    }
    SubsetSize(Nodes(advertised), Nodes(rs));
    NodesSize(rs);
    UniqueNodesBound(rs, Nodes(advertised));
  }

  /** Sixteen more heard afterwards change nothing. */
  lemma SecondRefused(network: IPv6, routes: seq<Route>, n: NodeId, advertised: seq<Route>, now: uint64)
    requires Block(network, advertised) && Sound(network, routes) && |routes| == MAX_ROUTE_TABLE_ENTRIES
    requires forall d: NodeId | View(routes, d).Some? :: View(routes, d).value.nextHop != n && d !in Nodes(advertised)
    ensures SameView(Apply(routes, n, advertised, now, 1).0, routes)
  {
    forall d: NodeId | View(routes, d).Some? ensures View(advertised, d).None? {
      BlockView(network, advertised, d);
    }
    ChangedIff(network, routes, n, advertised, now, 1);
    QuietViews(routes, n, advertised, now);
  }

  /** Two neighbours that are Connected but not alive, and what each of them advertises. */
  function TwoPeers(network: IPv6, n: NodeId, m: NodeId): seq<Peer> {
    [Peer(n, VirtualAddress(network, n), Connected, 0), Peer(m, VirtualAddress(network, m), Connected, 0)]
  }

  function Told(n: NodeId, routes: seq<Route>): StoredAdvertisement {
    StoredAdvertisement(Advertisement(n, 1, 1, routes), 0)
  }

  lemma TwoPeersAreValid(network: IPv6, n: NodeId, m: NodeId, now: uint64)
    requires n != m && n != EMPTY_NODE_ID && m != EMPTY_NODE_ID
    ensures ValidPeers(network, TwoPeers(network, n, m)) && ConnectedIds(TwoPeers(network, n, m)) == {n, m}
    ensures Direct(TwoPeers(network, n, m), now) == []
  {
    var peers := TwoPeers(network, n, m);
    assert peers[0] in peers && peers[1] in peers;
    assert peers[..1] == [peers[0]] && peers[..1][..0] == [];
    assert Direct(peers[..1], now) == [];
  }

  /** Folding in n first and m second installs what n offers and nothing of what m offers. */
  lemma FirstComeFirstServed(network: IPv6, store: Store, n: NodeId, m: NodeId, a: seq<Route>, b: seq<Route>,
                             now: uint64)
    requires n in store && m in store && n != m && store[n] == Told(n, a) && store[m] == Told(m, b)
    requires Block(network, a) && Block(network, b) && Nodes(a) !! Nodes(b) && n !in Nodes(a)
    ensures forall d: NodeId :: View(Fold([], [n, m], store, now), d).Some? <==> d in Nodes(a)
  {
    FoldTwo(store, n, m, now);
    FirstFills(network, n, a, now);
    SecondRefused(network, Apply([], n, a, now, 1).0, m, b, now);
  }

  lemma FoldTwo(store: Store, n: NodeId, m: NodeId, now: uint64)
    requires n in store && m in store && store[n].advertisement.sender == n && store[m].advertisement.sender == m
    ensures Fold([], [n, m], store, now)
            == Apply(Apply([], n, store[n].advertisement.routes, now, 1).0, m, store[m].advertisement.routes, now, 1).0
  {
    assert [n, m][..1] == [n] && [n][..0] == [];
    assert Fold([], [n], store, now) == Apply([], n, store[n].advertisement.routes, now, 1).0;
  }

  /** The order of the neighbours decides what is installed, and the rebuild is not the minimum over the candidates. */
  ghost predicate OrderMatters(network: IPv6, peers: seq<Peer>, store: Store, ids: seq<NodeId>, ids': seq<NodeId>,
                               now: uint64) {
    && ValidPeers(network, peers) && ValidStore(network, store)
    && Enumerates(ids, Neighbors(peers, store)) && Enumerates(ids', Neighbors(peers, store))
    && !SameView(Fold(Direct(peers, now), ids, store, now), Fold(Direct(peers, now), ids', store, now))
    && !(forall d: NodeId ::
           IsBest(View(Rebuilt(peers, store, now), d), LiveIds(peers, now), store, Neighbors(peers, store), d))
  }

  /** Where the order matters there are too many destinations, and so the rebuild is not the minimum. */
  lemma NotTheMinimum(network: IPv6, peers: seq<Peer>, store: Store, ids: seq<NodeId>, ids': seq<NodeId>, now: uint64)
    requires ValidPeers(network, peers) && ValidStore(network, store)
    requires Enumerates(ids, Neighbors(peers, store)) && Enumerates(ids', Neighbors(peers, store))
    requires !SameView(Fold(Direct(peers, now), ids, store, now), Fold(Direct(peers, now), ids', store, now))
    ensures OrderMatters(network, peers, store, ids, ids', now)
  {
    RebuiltIsArgmin(network, peers, store, now);
    if |Destinations(LiveIds(peers, now), store, Neighbors(peers, store))| <= MAX_ROUTE_TABLE_ENTRIES {
      RebuildOrderIrrelevant(network, peers, store, ids, now);
      RebuildOrderIrrelevant(network, peers, store, ids', now);
    }
  }

  function Rivals(n: NodeId, m: NodeId, a: seq<Route>, b: seq<Route>): Store {
    map[n := Told(n, a), m := Told(m, b)]
  }

  lemma RivalsDiffer(network: IPv6, n: NodeId, m: NodeId, a: seq<Route>, b: seq<Route>, store: Store, now: uint64)
    requires n in store && m in store && n != m && store[n] == Told(n, a) && store[m] == Told(m, b)
    requires Block(network, a) && Block(network, b) && Nodes(a) !! Nodes(b) && n !in Nodes(a) && m !in Nodes(b)
    ensures !SameView(Fold([], [n, m], store, now), Fold([], [m, n], store, now))
  {
    FirstComeFirstServed(network, store, n, m, a, b, now);
    FirstComeFirstServed(network, store, m, n, b, a, now);
    var d :| d in Nodes(a);
    assert View(Fold([], [n, m], store, now), d) != View(Fold([], [m, n], store, now), d);
  }

  lemma TwoRivals(network: IPv6, n: NodeId, m: NodeId, a: seq<Route>, b: seq<Route>, now: uint64)
    requires n != m && n != EMPTY_NODE_ID && m != EMPTY_NODE_ID
    requires Block(network, a) && Block(network, b) && Nodes(a) !! Nodes(b) && n !in Nodes(a) && m !in Nodes(b)
    ensures OrderMatters(network, TwoPeers(network, n, m), Rivals(n, m, a, b), [n, m], [m, n], now)
  {
    var peers, store := TwoPeers(network, n, m), Rivals(n, m, a, b);
    TwoPeersAreValid(network, n, m, now);
    assert Neighbors(peers, store) == {n, m};
    RivalsDiffer(network, n, m, a, b, store, now);
    NotTheMinimum(network, peers, store, [n, m], [m, n], now);
  }

  // ---------- identifiers to show it with ----------

  const ZEROS: seq<byte> :=
    [0, 0, 0, 0, 0, 0, 0, 0, 0, 0, 0, 0, 0, 0, 0, 0, 0, 0, 0, 0, 0, 0, 0, 0, 0, 0, 0, 0, 0, 0, 0]

  function Id(k: byte): NodeId {
    [k] + ZEROS
  }

  lemma IdInjective(k: byte, l: byte)
    ensures Id(k) == Id(l) <==> k == l
    ensures Id(k) == EMPTY_NODE_ID <==> k == 0
  {
    assert Id(k)[0] == k && Id(l)[0] == l && EMPTY_NODE_ID[0] == 0;
    assert k == 0 ==> Id(k) == EMPTY_NODE_ID;
  }

  function RouteTo(network: IPv6, d: NodeId): Route {
    Route(VirtualAddress(network, d), d, EMPTY_NODE_ID, 1, 0)
  }

  /** Routes to the sixteen nodes from first on. */
  function Sixteen(network: IPv6, first: byte): seq<Route>
    requires first <= 240
  {
    seq(16, i requires 0 <= i < 16 => RouteTo(network, Id(first + i)))
  }

  lemma SixteenMember(network: IPv6, first: byte, r: Route) returns (k: byte)
    requires 0 < first <= 240 && r in Sixteen(network, first)
    ensures first <= k < first + 16 && r == RouteTo(network, Id(k)) && Id(k) != EMPTY_NODE_ID
  {
    var i :| 0 <= i < 16 && Sixteen(network, first)[i] == r;
    k := first + i;
    IdInjective(k, 0);
  }

  lemma SixteenIsBlock(network: IPv6, first: byte)
    requires 0 < first <= 240
    ensures Block(network, Sixteen(network, first))
    ensures forall d | d in Nodes(Sixteen(network, first)) :: exists k: byte :: first <= k < first + 16 && d == Id(k)
  {
    var routes := Sixteen(network, first);
    forall i, j | 0 <= i < j < 16 ensures routes[i].destinationNode != routes[j].destinationNode {
      assert routes[i] == RouteTo(network, Id(first + i)) && routes[j] == RouteTo(network, Id(first + j));
      IdInjective(first + i, first + j);
    }
    forall r | r in routes
      ensures ValidRoute(network, r) && r.metric == 1
      ensures exists k: byte :: first <= k < first + 16 && r.destinationNode == Id(k)
    {
      var k := SixteenMember(network, first, r);
    }
    UniqueNodesBound(routes, Nodes(routes));
    NodesSize(routes);
  }

  lemma SixteenDisjoint(network: IPv6, first: byte, second: byte)
    requires 0 < first <= 240 && 0 < second <= 240 && first + 16 <= second
    ensures Nodes(Sixteen(network, first)) !! Nodes(Sixteen(network, second))
    ensures forall k: byte | 0 < k < first ::
              Id(k) !in Nodes(Sixteen(network, first)) && Id(k) !in Nodes(Sixteen(network, second))
  {
    SixteenIsBlock(network, first);
    SixteenIsBlock(network, second);
    forall k: byte, l: byte | k != l ensures Id(k) != Id(l) {
      IdInjective(k, l);
    }
  }

  /** Beyond 16 destinations the order of the neighbours can decide what is installed: k and l are Connected but not
      alive and advertise sixteen nodes each. */
  lemma OrderMattersBeyondCapacity(network: IPv6, k: byte, l: byte, first: byte, second: byte)
    requires 0 < k < l < first && first + 16 <= second <= 240
    ensures OrderMatters(network, TwoPeers(network, Id(k), Id(l)),
                         Rivals(Id(k), Id(l), Sixteen(network, first), Sixteen(network, second)),
                         [Id(k), Id(l)], [Id(l), Id(k)], 0)
  {
    IdInjective(k, l);
    IdInjective(l, k);
    SixteenIsBlock(network, first);
    SixteenIsBlock(network, second);
    SixteenDisjoint(network, first, second);
    TwoRivals(network, Id(k), Id(l), Sixteen(network, first), Sixteen(network, second), 0);
  }

  // ---------- fifteen rounds are not enough ----------

  /** Three nodes linked to each other and a fourth that nobody reaches. */
  ghost predicate Triangle(g: Graph, a: NodeId, b: NodeId, c: NodeId, d: NodeId) {
    && a != b && b != c && c != a && d != a && d != b && d != c
    && g.nodes == {a, b, c, d}
    && Links(g, a) == {b, c} && Links(g, b) == {a, c} && Links(g, c) == {a, b} && Links(g, d) == {}
  }

  ghost predicate Believes(t: Tables, u: NodeId, d: NodeId, m: uint32, n: NodeId) {
    View(TableOf(t, u), d) == Some(Entry(m, n))
  }

  /** Each of the three believes in a route of metric m through the one before it. */
  ghost predicate Circling(t: Tables, a: NodeId, b: NodeId, c: NodeId, d: NodeId, m: uint32) {
    Believes(t, a, d, m, c) && Believes(t, b, d, m, a) && Believes(t, c, d, m, b)
  }

  /** u hears of d from p, and poison from q, who routes through u. */
  lemma CircleStep(g: Graph, column: Column, u: NodeId, p: NodeId, q: NodeId, d: NodeId, m: uint32, v: Option<Entry>)
    requires Links(g, u) == {p, q} && p != q && q != u && d != p && d != q && m + 1 < ROUTE_METRIC_INFINITY
    requires At(column, p) == Some(Entry(m, q)) && At(column, q) == Some(Entry(m, u))
    requires BestChoice(g, column, u, d, v)
    ensures v == Some(Entry(m + 1, p))
  {
    assert Choice(g, column, u, d, Entry(m + 1, p));
  }

  /** after is what a round makes of before, at u and for d. */
  ghost predicate Chooses(g: Graph, before: Tables, after: Tables, u: NodeId, d: NodeId) {
    BestChoice(g, ColumnOf(before, d), u, d, View(TableOf(after, u), d))
  }

  lemma CircleOn(g: Graph, before: Tables, after: Tables, u: NodeId, p: NodeId, q: NodeId, d: NodeId, m: uint32,
                 m': uint32)
    requires Links(g, u) == {p, q} && p != q && q != u && d != p && d != q && m' == m + 1 < ROUTE_METRIC_INFINITY
    requires Chooses(g, before, after, u, d) && Believes(before, p, d, m, q) && Believes(before, q, d, m, u)
    ensures Believes(after, u, d, m', p)
  {
    ColumnAt(before, p, d);
    ColumnAt(before, q, d);
    CircleStep(g, ColumnOf(before, d), u, p, q, d, m, View(TableOf(after, u), d));
  }

  lemma CirclingOn(g: Graph, before: Tables, after: Tables, a: NodeId, b: NodeId, c: NodeId, d: NodeId, m: uint32,
                   m': uint32)
    requires Triangle(g, a, b, c, d) && Circling(before, a, b, c, d, m) && m' == m + 1 < ROUTE_METRIC_INFINITY
    requires Chooses(g, before, after, a, d) && Chooses(g, before, after, b, d) && Chooses(g, before, after, c, d)
    ensures Circling(after, a, b, c, d, m')
  {
    CircleOn(g, before, after, a, c, b, d, m, m');
    CircleOn(g, before, after, b, a, c, d, m, m');
    CircleOn(g, before, after, c, b, a, d, m, m');
  }

  lemma CirclingRound(network: IPv6, g: Graph, t: Tables, rounds: seq<Snapshot>, a: NodeId, b: NodeId, c: NodeId,
                      d: NodeId, m: uint32, m': uint32)
    requires ValidRun(network, g, t, rounds) && rounds != [] && Triangle(g, a, b, c, d)
    requires Circling(Run(g, t, rounds[..|rounds| - 1]), a, b, c, d, m) && m' == m + 1 < ROUTE_METRIC_INFINITY
    ensures Circling(Run(g, t, rounds), a, b, c, d, m')
  {
    var before, after := Run(g, t, rounds[..|rounds| - 1]), Run(g, t, rounds);
    forall u | u in g.nodes ensures Chooses(g, before, after, u, d) {
      LastRound(network, g, t, rounds, u, d);
    }
    CirclingOn(g, before, after, a, b, c, d, m, m');
  }

  lemma NoRounds(g: Graph, t: Tables, rounds: seq<Snapshot>, a: NodeId, b: NodeId, c: NodeId, d: NodeId, m: uint32)
    requires rounds == [] && m == 0 && Circling(t, a, b, c, d, 0)
    ensures Circling(Run(g, t, rounds), a, b, c, d, m)
  {
  }

  /** So they mislead each other round after round. */
  lemma {:induction false} StillCircling(network: IPv6, g: Graph, t: Tables, rounds: seq<Snapshot>,
                                         a: NodeId, b: NodeId, c: NodeId, d: NodeId, m: uint32)
    requires ValidRun(network, g, t, rounds) && |rounds| == m < ROUTE_METRIC_INFINITY
    requires Triangle(g, a, b, c, d) && Circling(t, a, b, c, d, 0)
    ensures Circling(Run(g, t, rounds), a, b, c, d, m)
    decreases m
  {
    if m == 0 {
      NoRounds(g, t, rounds, a, b, c, d, m);
    } else {
      FirstRounds(network, g, t, rounds, |rounds| - 1);
      StillCircling(network, g, t, rounds[..|rounds| - 1], a, b, c, d, m - 1);
      CirclingRound(network, g, t, rounds, a, b, c, d, m - 1, m);
    }
  }

  lemma LastHop(g: Graph, p: seq<NodeId>, u: NodeId, d: NodeId)
    requires IsPath(g, p, u, d) && u != d
    ensures exists x :: x in g.nodes && d in Links(g, x)
  {
    assert p[|p| - 2 + 1] in Links(g, p[|p| - 2]) && p[|p| - 2] in p;
  }

  lemma Unreachable(g: Graph, a: NodeId, b: NodeId, c: NodeId, d: NodeId)
    requires ValidGraph(g) && Triangle(g, a, b, c, d)
    ensures Dist(g, a, d) == ROUTE_METRIC_INFINITY
  {
    HopDistance(g, a, d);
    if p :| IsPath(g, p, a, d) {
      LastHop(g, p, a, d);
    }
  }

  /** A table whose one route is to d through n, at no distance at all. */
  function Garbage(network: IPv6, d: NodeId, n: NodeId): seq<Route> {
    [Route(VirtualAddress(network, d), d, n, 0, 0)]
  }

  lemma GarbageIsSound(network: IPv6, d: NodeId, n: NodeId)
    requires d != EMPTY_NODE_ID
    ensures Sound(network, Garbage(network, d, n)) && Nodes(Garbage(network, d, n)) == {d}
    ensures View(Garbage(network, d, n), d) == Some(Entry(0, n))
  {
    assert Garbage(network, d, n)[0] in Garbage(network, d, n);
  }

  /** The three who hear of each other, and the fourth without links. */
  function TriangleOf(a: NodeId, b: NodeId, c: NodeId, d: NodeId): Graph {
    Graph({a, b, c, d}, map[a := {b, c}, b := {a, c}, c := {a, b}, d := {}])
  }

  function CirclingTables(network: IPv6, a: NodeId, b: NodeId, c: NodeId, d: NodeId): Tables {
    map[a := Garbage(network, d, c), b := Garbage(network, d, a), c := Garbage(network, d, b), d := []]
  }

  lemma TriangleIsGraph(g: Graph, a: NodeId, b: NodeId, c: NodeId, d: NodeId)
    requires Triangle(g, a, b, c, d) && g.links.Keys == g.nodes && EMPTY_NODE_ID !in g.nodes
    ensures ValidGraph(g)
  {
    FourNodes(a, b, c, d);
  }

  lemma FourNodes(a: NodeId, b: NodeId, c: NodeId, d: NodeId)
    ensures |{a, b, c, d}| <= 4
  {
    assert {a, b, c, d} == {a} + {b} + {c} + {d};
  }

  predicate FourDifferent(a: NodeId, b: NodeId, c: NodeId, d: NodeId) {
    a != b && b != c && c != a && d != a && d != b && d != c && EMPTY_NODE_ID !in {a, b, c, d}
  }

  lemma TriangleGraph(a: NodeId, b: NodeId, c: NodeId, d: NodeId)
    requires FourDifferent(a, b, c, d)
    ensures ValidGraph(TriangleOf(a, b, c, d)) && Triangle(TriangleOf(a, b, c, d), a, b, c, d)
  {
    TriangleIsGraph(TriangleOf(a, b, c, d), a, b, c, d);
  }

  lemma TriangleTables(network: IPv6, a: NodeId, b: NodeId, c: NodeId, d: NodeId)
    requires FourDifferent(a, b, c, d)
    ensures ValidTables(network, TriangleOf(a, b, c, d), CirclingTables(network, a, b, c, d))
  {
    var g, t := TriangleOf(a, b, c, d), CirclingTables(network, a, b, c, d);
    forall u | u in g.nodes ensures Sound(network, TableOf(t, u)) && Nodes(TableOf(t, u)) <= g.nodes {
      var n := if u == a then c else if u == b then a else b;
      GarbageIsSound(network, d, n);
      assert TableOf(t, u) == (if u == d then [] else Garbage(network, d, n)) && Nodes([]) == {};
    }
  }

  lemma TriangleCircling(network: IPv6, a: NodeId, b: NodeId, c: NodeId, d: NodeId)
    requires FourDifferent(a, b, c, d)
    ensures Circling(CirclingTables(network, a, b, c, d), a, b, c, d, 0)
  {
    GarbageIsSound(network, d, a);
    GarbageIsSound(network, d, b);
    GarbageIsSound(network, d, c);
  }

  lemma CirclingIsNotConverged(g: Graph, t: Tables, a: NodeId, b: NodeId, c: NodeId, d: NodeId, m: uint32)
    requires ValidGraph(g) && Triangle(g, a, b, c, d) && Circling(t, a, b, c, d, m)
    ensures !Converged(g, t)
  {
    Unreachable(g, a, b, c, d);
    assert !Ideal(g, a, d, View(TableOf(t, a), d));
  }

  /** Whatever four nodes are taken and whatever fifteen rounds: three of the nodes can still hold routes to the fourth,
      which nobody reaches, so sixteen rounds are needed. There are such rounds. */
  lemma FifteenRoundsAreNotEnough(network: IPv6, a: NodeId, b: NodeId, c: NodeId, d: NodeId, rounds: seq<Snapshot>)
    requires FourDifferent(a, b, c, d) && |rounds| == 15
    requires forall s | s in rounds :: ValidSnapshot(network, TriangleOf(a, b, c, d), s)
    ensures var g, t := TriangleOf(a, b, c, d), CirclingTables(network, a, b, c, d);
            && ValidRun(network, g, t, rounds) && !Converged(g, Run(g, t, rounds))
            && ValidSnapshot(network, g, AllUp(network, g))
  {
    var g, t := TriangleOf(a, b, c, d), CirclingTables(network, a, b, c, d);
    TriangleGraph(a, b, c, d);
    TriangleTables(network, a, b, c, d);
    TriangleCircling(network, a, b, c, d);
    AllUpIsValid(network, g);
    StillCircling(network, g, t, rounds, a, b, c, d, 15);
    CirclingIsNotConverged(g, Run(g, t, rounds), a, b, c, d, 15);
  }
}
