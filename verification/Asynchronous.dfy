/** The nodes on their own clocks: advertisements are sent and delivered one by one, in any interleaving, late,
    reordered and repeated. Every node runs the daemon's reception code, locked region by locked region; nothing is
    synchronised. */
module Asynchronous {
  import opened Bytes
  import opened Routing
  import opened DistanceVector
  import opened Rebuild
  import opened Daemon
  import opened Graph
  import opened Network

  /** A node's routing state, the version it will stamp on its next advertisement, and whether a reception has changed
      the table and the rebuild that follows has not taken place yet. */
  datatype Node = Node(state: NodeState, version: Version, due: bool)

  datatype Message = Message(from: NodeId, to: NodeId, advertisement: Advertisement)

  /** All nodes, and everything that was ever sent: any of it may still arrive, any number of times. */
  datatype World = World(nodes: map<NodeId, Node>, sent: set<Message>)

  /** Refresh is a rebuild, the second locked region of a reception or one for any other reason. */
  datatype Event =
    | Send(from: NodeId, to: NodeId)
    | Deliver(message: Message, at: uint64, storedAt: uint64)
    | Refresh(node: NodeId, peers: seq<Peer>, now: uint64)

  function NodeOf(w: World, u: NodeId): Node {
    if u in w.nodes then w.nodes[u] else Node(EMPTY_STATE, Version(0, 0), false)
  }

  function StateOf(w: World, u: NodeId): NodeState {
    NodeOf(w, u).state
  }

  function VersionAt(w: World, u: NodeId): Version {
    NodeOf(w, u).version
  }

  function WithState(w: World, u: NodeId, s: NodeState, due: bool): World {
    w.(nodes := w.nodes[u := NodeOf(w, u).(state := s, due := due)])
  }

  /** What n would tell u now, as it arrives. */
  function Outgoing(w: World, n: NodeId, u: NodeId): Message {
    var adv := Stamped(n, StateOf(w, n).routes, u, VersionAt(w, n));
    Message(n, u, adv.(routes := OnWire(adv.routes)))
  }

  /** The delivery as its receiver sees it; peer list and clock are read by the rebuild only. */
  function Incoming(m: Message, at: uint64, storedAt: uint64): Reception {
    Reception(m.from, m.advertisement, at, storedAt, [], 0)
  }

  ghost function Step(network: IPv6, w: World, e: Event): World {
    match e
    case Send(n, u) =>
      World(w.nodes[n := NodeOf(w, n).(version := NextVersion(VersionAt(w, n)))], w.sent + {Outgoing(w, n, u)})
    case Deliver(m, at, storedAt) =>
      var (s, outcome) := TakeIn(network, StateOf(w, m.to), Incoming(m, at, storedAt));
      WithState(w, m.to, s, NodeOf(w, m.to).due || outcome == Recomputed)
    case Refresh(u, peers, now) =>
      WithState(w, u, StateOf(w, u).(routes := Rebuilt(peers, StateOf(w, u).store, now)), false)
  }

  ghost function After(network: IPv6, w: World, es: seq<Event>): World {
    if es == [] then w else Step(network, After(network, w, es[..|es| - 1]), es[|es| - 1])
  }

  /** Peer list and clock show exactly the graph's links as Connected and alive. */
  ghost predicate SeesLinks(network: IPv6, g: Graph, u: NodeId, peers: seq<Peer>, now: uint64) {
    ValidPeers(network, peers) && ConnectedIds(peers) == Links(g, u) && LiveIds(peers, now) == Links(g, u)
  }

  /** Nodes talk to neighbours until their sequence numbers run out; what is delivered was sent. */
  ghost predicate ValidEvent(network: IPv6, g: Graph, w: World, e: Event) {
    match e
    case Send(n, u) => n in g.nodes && u in Links(g, n) && VersionAt(w, n).sequence + 1 < SEQUENCE_RANGE
    case Deliver(m, _, _) => m in w.sent
    case Refresh(u, peers, now) => u in g.nodes && SeesLinks(network, g, u, peers, now)
  }

  ghost predicate ValidEvents(network: IPv6, g: Graph, w: World, es: seq<Event>) {
    es == [] || (&& ValidEvents(network, g, w, es[..|es| - 1])
                 && ValidEvent(network, g, After(network, w, es[..|es| - 1]), es[|es| - 1]))
  }

  // ---------- what every event keeps ----------

  /** The table shows the best of what is stored from neighbours. */
  ghost predicate Best(g: Graph, u: NodeId, s: NodeState) {
    forall d: NodeId :: IsBest(View(s.routes, d), Links(g, u), s.store, s.store.Keys * Links(g, u), d)
  }

  ghost predicate GoodState(network: IPv6, g: Graph, s: NodeState) {
    && ValidStore(network, s.store) && Mentioned(s.store) <= g.nodes
    && Sound(network, s.routes) && Nodes(s.routes) <= g.nodes
  }

  /** Unless a rebuild is due, the table is what a rebuild would give. */
  ghost predicate GoodNode(network: IPv6, g: Graph, u: NodeId, node: Node) {
    GoodState(network, g, node.state) && (!node.due ==> Best(g, u, node.state))
  }

  /** What u has on file from n was sent by n, under a version that n has left behind. */
  ghost predicate GoodFile(w: World, u: NodeId, n: NodeId) {
    var s := StateOf(w, u);
    && (n in s.origins ==> Newer(VersionAt(w, n), s.origins[n]))
    && (n in s.store ==>
          && n in s.origins && s.origins[n] == VersionOf(s.store[n].advertisement)
          && Message(n, u, s.store[n].advertisement) in w.sent)
  }

  ghost predicate GoodMessage(network: IPv6, g: Graph, w: World, m: Message) {
    && m.to in g.nodes && m.from in Links(g, m.to) && m.advertisement.sender == m.from
    && ValidAdvertisement(network, m.advertisement)
    && Sound(network, m.advertisement.routes) && Nodes(m.advertisement.routes) <= g.nodes
    && Newer(VersionAt(w, m.from), VersionOf(m.advertisement))
  }

  /** Apart from this, tables, files and messages on the way may hold anything. */
  ghost predicate Consistent(network: IPv6, g: Graph, w: World) {
    && ValidGraph(g) && w.nodes.Keys == g.nodes
    && (forall u {:trigger GoodNode(network, g, u, NodeOf(w, u))} | u in g.nodes ::
       GoodNode(network, g, u, NodeOf(w, u)))
    && (forall u, n {:trigger GoodFile(w, u, n)} | u in g.nodes && n in Links(g, u) :: GoodFile(w, u, n))
    && forall m {:trigger GoodMessage(network, g, w, m)} | m in w.sent :: GoodMessage(network, g, w, m)
  }

  /** A table shows the best of its files exactly if it is what a rebuild gives. */
  lemma BestIsInStep(network: IPv6, g: Graph, u: NodeId, s: NodeState, peers: seq<Peer>, now: uint64)
    requires ValidGraph(g) && u in g.nodes && SeesLinks(network, g, u, peers, now) && GoodState(network, g, s)
    ensures Best(g, u, s) <==> InStep(network, s, peers, now)
  {
    var ids := s.store.Keys * Links(g, u);
    assert Neighbors(peers, s.store) == ids;
    UniqueNodesBound(s.routes, g.nodes);
    RebuiltWithin(network, peers, s.store, now, g.nodes);
    if Best(g, u, s) {
      forall d: NodeId ensures View(s.routes, d) == View(Rebuilt(peers, s.store, now), d) {
        BestUnique(View(s.routes, d), View(Rebuilt(peers, s.store, now), d), Links(g, u), s.store, ids, d);
      }
    }
  }

  lemma AdvertisedFits(network: IPv6, g: Graph, routes: seq<Route>, n: NodeId, advertised: seq<Route>)
    requires ValidGraph(g) && Nodes(routes) <= g.nodes && Nodes(advertised) <= g.nodes
    ensures Fits(routes, n, advertised, 1, g.nodes)
  {
    forall a | a in advertised ensures a.destinationNode in g.nodes {
      assert a.destinationNode in Nodes(advertised);
    }
  }

  /** The table after a delivery, destination by destination. */
  lemma TakenInView(network: IPv6, g: Graph, s: NodeState, r: Reception)
    requires ValidGraph(g) && GoodState(network, g, s) && Accepted(network, s.origins, r)
    requires UniqueNodes(r.advertisement.routes) && Nodes(r.advertisement.routes) <= g.nodes
    ensures var s' := TakeIn(network, s, r).0;
            && Sound(network, s'.routes) && Nodes(s'.routes) <= g.nodes
            && forall d: NodeId :: View(s'.routes, d)
                                   == PointUpdate(View(s.routes, d), View(r.advertisement.routes, d), r.sender, d, 1)
  {
    AdvertisedFits(network, g, s.routes, r.sender, r.advertisement.routes);
    ApplyView(network, s.routes, r.sender, r.advertisement.routes, r.at, 1, g.nodes);
  }

  lemma TakeInKeepsState(network: IPv6, g: Graph, s: NodeState, r: Reception)
    requires ValidGraph(g) && GoodState(network, g, s)
    requires Sound(network, r.advertisement.routes) && Nodes(r.advertisement.routes) <= g.nodes
    ensures GoodState(network, g, TakeIn(network, s, r).0)
  {
    if Accepted(network, s.origins, r) {
      TakenInView(network, g, s, r);
      StillMentioned(s.store, r.sender, StoredAdvertisement(r.advertisement, r.storedAt), g.nodes);
    }
  }

  /** A delivery that reports no change leaves the table the best of the files, the new one included. */
  lemma QuietKeepsBest(network: IPv6, g: Graph, u: NodeId, s: NodeState, r: Reception)
    requires ValidGraph(g) && u in g.nodes && r.sender in Links(g, u) && GoodState(network, g, s) && Best(g, u, s)
    requires UniqueNodes(r.advertisement.routes) && Nodes(r.advertisement.routes) <= g.nodes
    requires Accepted(network, s.origins, r) && TakeIn(network, s, r).1 == Unchanged
    ensures Best(g, u, TakeIn(network, s, r).0)
  {
    var s', n := TakeIn(network, s, r).0, r.sender;
    var ids, ids' := s.store.Keys * Links(g, u), s'.store.Keys * Links(g, u);
    assert ids' == ids + {n};
    TakenInView(network, g, s, r);
    QuietViews(s.routes, n, r.advertisement.routes, r.at);
    forall d: NodeId ensures IsBest(View(s'.routes, d), Links(g, u), s'.store, ids', d) {
      assert IsBest(View(s.routes, d), Links(g, u), s.store, ids, d);
      QuietAt(View(s.routes, d), Links(g, u), s.store, s'.store, ids, ids', n, d);
    }
  }

  lemma TakeInKeepsNode(network: IPv6, g: Graph, u: NodeId, node: Node, r: Reception)
    requires ValidGraph(g) && u in g.nodes && r.sender in Links(g, u) && GoodNode(network, g, u, node)
    requires Sound(network, r.advertisement.routes) && Nodes(r.advertisement.routes) <= g.nodes
    ensures var (s', outcome) := TakeIn(network, node.state, r);
            GoodNode(network, g, u, node.(state := s', due := node.due || outcome == Recomputed))
  {
    TakeInKeepsState(network, g, node.state, r);
    if !node.due && TakeIn(network, node.state, r).1 == Unchanged {
      QuietKeepsBest(network, g, u, node.state, r);
    }
  }

  /** After a rebuild the table is the best of the files, whatever it was. */
  lemma RefreshGivesBest(network: IPv6, g: Graph, u: NodeId, s: NodeState, peers: seq<Peer>, now: uint64)
    requires ValidGraph(g) && u in g.nodes && GoodState(network, g, s) && SeesLinks(network, g, u, peers, now)
    ensures var s' := s.(routes := Rebuilt(peers, s.store, now)); GoodState(network, g, s') && Best(g, u, s')
  {
    var s' := s.(routes := Rebuilt(peers, s.store, now));
    RebuiltWithin(network, peers, s.store, now, g.nodes);
    UniqueNodesBound(s'.routes, g.nodes);
    BestIsInStep(network, g, u, s', peers, now);
  }

  lemma OutgoingIsGood(network: IPv6, g: Graph, w: World, n: NodeId, u: NodeId)
    requires Consistent(network, g, w) && n in g.nodes && u in Links(g, n)
    ensures var adv := Outgoing(w, n, u).advertisement;
            && n in Links(g, u) && ValidAdvertisement(network, adv) && Sound(network, adv.routes)
               && Nodes(adv.routes) <= g.nodes
            && forall d: NodeId :: View(adv.routes, d) == Received(View(StateOf(w, n).routes, d), u)
  {
    assert GoodNode(network, g, n, NodeOf(w, n));
    ReceivedView(network, StateOf(w, n).routes, u);
    UniqueNodesBound(Outgoing(w, n, u).advertisement.routes, g.nodes);
  }

  lemma NextIsNewer(v: Version, than: Version)
    requires v.sequence + 1 < SEQUENCE_RANGE
    ensures Newer(NextVersion(v), v) && (Newer(v, than) ==> Newer(NextVersion(v), than))
  {
  }

  lemma SendKeepsNode(network: IPv6, g: Graph, w: World, n: NodeId, u: NodeId, x: NodeId)
    requires Consistent(network, g, w) && n in g.nodes && x in g.nodes
    ensures GoodNode(network, g, x, NodeOf(Step(network, w, Send(n, u)), x))
  {
    assert GoodNode(network, g, x, NodeOf(w, x));
  }

  lemma SendKeepsFile(network: IPv6, g: Graph, w: World, n: NodeId, u: NodeId, x: NodeId, y: NodeId)
    requires Consistent(network, g, w) && ValidEvent(network, g, w, Send(n, u)) && x in g.nodes && y in Links(g, x)
    ensures GoodFile(Step(network, w, Send(n, u)), x, y)
  {
    var w' := Step(network, w, Send(n, u));
    NextIsNewer(VersionAt(w, n), VersionAt(w, n));
    assert GoodFile(w, x, y) && StateOf(w', x) == StateOf(w, x);
  }

  lemma SendKeepsMessage(network: IPv6, g: Graph, w: World, n: NodeId, u: NodeId, m: Message)
    requires Consistent(network, g, w) && ValidEvent(network, g, w, Send(n, u)) && m in w.sent + {Outgoing(w, n, u)}
    ensures GoodMessage(network, g, Step(network, w, Send(n, u)), m)
  {
    NextIsNewer(VersionAt(w, n), VersionAt(w, n));
    if m in w.sent {
      assert GoodMessage(network, g, w, m);
    } else {
      OutgoingIsGood(network, g, w, n, u);
    }
  }

  lemma SendKeeps(network: IPv6, g: Graph, w: World, n: NodeId, u: NodeId)
    requires Consistent(network, g, w) && ValidEvent(network, g, w, Send(n, u))
    ensures Consistent(network, g, Step(network, w, Send(n, u)))
  {
    var w' := Step(network, w, Send(n, u));
    forall x | x in g.nodes ensures GoodNode(network, g, x, NodeOf(w', x)) {
      SendKeepsNode(network, g, w, n, u, x);
    }
    forall x, y | x in g.nodes && y in Links(g, x) ensures GoodFile(w', x, y) {
      SendKeepsFile(network, g, w, n, u, x, y);
    }
    forall m | m in w'.sent ensures GoodMessage(network, g, w', m) {
      SendKeepsMessage(network, g, w, n, u, m);
    }
  }

  lemma OthersKeepState(network: IPv6, g: Graph, w: World, u: NodeId, s: NodeState, due: bool, x: NodeId)
    requires Consistent(network, g, w) && x in g.nodes && GoodNode(network, g, u, NodeOf(w, u).(state := s, due := due))
    ensures GoodNode(network, g, x, NodeOf(WithState(w, u, s, due), x))
  {
    if x != u {
      assert NodeOf(WithState(w, u, s, due), x) == NodeOf(w, x);
      assert GoodNode(network, g, x, NodeOf(w, x));
    }
  }

  lemma OthersKeepFile(g: Graph, w: World, u: NodeId, s: NodeState, due: bool, x: NodeId, n: NodeId)
    requires GoodFile(w, x, n) && (x == u ==> GoodFile(WithState(w, u, s, due), x, n))
    ensures GoodFile(WithState(w, u, s, due), x, n)
  {
  }

  lemma StateChangeKeepsMessage(network: IPv6, g: Graph, w: World, u: NodeId, s: NodeState, due: bool, m: Message)
    requires GoodMessage(network, g, w, m)
    ensures GoodMessage(network, g, WithState(w, u, s, due), m)
  {
  }

  /** An event that changes only one node's state keeps the world consistent if that state and its files stay good. */
  lemma StateChangeKeeps(network: IPv6, g: Graph, w: World, u: NodeId, s: NodeState, due: bool)
    requires Consistent(network, g, w) && u in g.nodes && GoodNode(network, g, u, NodeOf(w, u).(state := s, due := due))
    requires forall n | n in Links(g, u) :: GoodFile(WithState(w, u, s, due), u, n)
    ensures Consistent(network, g, WithState(w, u, s, due))
  {
    var w' := WithState(w, u, s, due);
    forall x | x in g.nodes ensures GoodNode(network, g, x, NodeOf(w', x)) {
      OthersKeepState(network, g, w, u, s, due, x);
    }
    forall x, y | x in g.nodes && y in Links(g, x) ensures GoodFile(w', x, y) {
      OthersKeepFile(g, w, u, s, due, x, y);
    }
    forall m | m in w'.sent ensures GoodMessage(network, g, w', m) {
      StateChangeKeepsMessage(network, g, w, u, s, due, m);
    }
  }

  /** What the guard lets through. */
  lemma TakeInGuard(network: IPv6, s: NodeState, r: Reception)
    ensures var (s', outcome) := TakeIn(network, s, r);
            if Accepted(network, s.origins, r)
            then && s'.origins == s.origins[r.sender := VersionOf(r.advertisement)]
                 && s'.store == s.store[r.sender := StoredAdvertisement(r.advertisement, r.storedAt)]
            else s' == s && outcome != Recomputed
  {
  }

  lemma DeliverKeeps(network: IPv6, g: Graph, w: World, e: Event)
    requires Consistent(network, g, w) && e.Deliver? && ValidEvent(network, g, w, e)
    ensures Consistent(network, g, Step(network, w, e))
  {
    var m, u := e.message, e.message.to;
    var r, s := Incoming(m, e.at, e.storedAt), StateOf(w, u);
    var (s', outcome) := TakeIn(network, s, r);
    var due := NodeOf(w, u).due || outcome == Recomputed;
    assert GoodMessage(network, g, w, m);
    assert GoodNode(network, g, u, NodeOf(w, u));
    TakeInKeepsNode(network, g, u, NodeOf(w, u), r);
    TakeInGuard(network, s, r);
    forall n | n in Links(g, u) ensures GoodFile(WithState(w, u, s', due), u, n) {
      assert GoodFile(w, u, n);
    }
    StateChangeKeeps(network, g, w, u, s', due);
  }

  lemma RefreshKeeps(network: IPv6, g: Graph, w: World, e: Event)
    requires Consistent(network, g, w) && e.Refresh? && ValidEvent(network, g, w, e)
    ensures Consistent(network, g, Step(network, w, e))
  {
    var u, s := e.node, StateOf(w, e.node);
    var s' := s.(routes := Rebuilt(e.peers, s.store, e.now));
    assert GoodNode(network, g, u, NodeOf(w, u));
    RefreshGivesBest(network, g, u, s, e.peers, e.now);
    forall n | n in Links(g, u) ensures GoodFile(WithState(w, u, s', false), u, n) {
      assert GoodFile(w, u, n);
    }
    StateChangeKeeps(network, g, w, u, s', false);
  }

  /** Every event keeps the world consistent. */
  lemma StepKeeps(network: IPv6, g: Graph, w: World, e: Event)
    requires Consistent(network, g, w) && ValidEvent(network, g, w, e)
    ensures Consistent(network, g, Step(network, w, e))
  {
    match e
    case Send(n, u) => SendKeeps(network, g, w, n, u);
    case Deliver(_, _, _) => DeliverKeeps(network, g, w, e);
    case Refresh(_, _, _) => RefreshKeeps(network, g, w, e);
  }
}
