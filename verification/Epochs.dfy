/** Convergence without rounds: what epochs of unsynchronised talking make of the tables. */
module Epochs {
  import opened Bytes
  import opened Routing
  import opened DistanceVector
  import opened Rebuild
  import opened Daemon
  import opened Graph
  import opened Network
  import opened Convergence
  import opened Stabilisation
  import opened Asynchronous

  // ---------- versions only grow ----------

  predicate AtLeast(v: Version, low: Version) {
    !Newer(low, v)
  }

  /** u has recorded a version of n's that is not older than low. */
  predicate Recorded(w: World, u: NodeId, n: NodeId, low: Version) {
    n in StateOf(w, u).origins && AtLeast(StateOf(w, u).origins[n], low)
  }

  lemma StepGrows(network: IPv6, g: Graph, w: World, e: Event, u: NodeId, n: NodeId, low: Version)
    requires ValidEvent(network, g, w, e)
    ensures Recorded(w, u, n, low) ==> Recorded(Step(network, w, e), u, n, low)
    ensures AtLeast(VersionAt(w, n), low) ==> AtLeast(VersionAt(Step(network, w, e), n), low)
    ensures Recorded(w, u, n, low) && n in StateOf(w, u).store ==> n in StateOf(Step(network, w, e), u).store
  {
    match e
    case Send(x, y) =>
      NextIsNewer(VersionAt(w, x), VersionAt(w, x));
    case Deliver(m, at, storedAt) =>
      TakeInGuard(network, StateOf(w, m.to), Incoming(m, at, storedAt));
    case Refresh(_, _, _) =>
  }

  lemma {:induction false} RunGrows(
      network: IPv6, g: Graph, w: World, es: seq<Event>, i: nat, u: NodeId, n: NodeId, low: Version)
    requires i <= |es| && ValidEvents(network, g, w, es)
    ensures Recorded(After(network, w, es[..i]), u, n, low) ==> Recorded(After(network, w, es), u, n, low)
    ensures AtLeast(VersionAt(After(network, w, es[..i]), n), low) ==> AtLeast(VersionAt(After(network, w, es), n), low)
  {
    if i < |es| {
      var init := es[..|es| - 1];
      ValidPrefix(network, g, w, es, |es| - 1);
      assert init[..i] == es[..i];
      RunGrows(network, g, w, init, i, u, n, low);
      StepGrows(network, g, After(network, w, init), es[|es| - 1], u, n, low);
    } else {
      assert es[..i] == es;
    }
  }

  lemma RecordedStays(
      network: IPv6, g: Graph, w: World, es: seq<Event>, i: nat, u: NodeId, n: NodeId, v: Version, low: Version)
    requires i <= |es| && ValidEvents(network, g, w, es)
    requires Recorded(After(network, w, es[..i]), u, n, v) && AtLeast(v, low)
    ensures Recorded(After(network, w, es), u, n, low)
  {
    RecordedEarlier(After(network, w, es[..i]), u, n, v, low);
    RunGrows(network, g, w, es, i, u, n, low);
  }

  lemma RecordedEarlier(w: World, u: NodeId, n: NodeId, v: Version, low: Version)
    requires Recorded(w, u, n, v) && AtLeast(v, low)
    ensures Recorded(w, u, n, low)
  {
  }

  lemma {:induction false} ValidPrefix(network: IPv6, g: Graph, w: World, es: seq<Event>, i: nat)
    requires i <= |es| && ValidEvents(network, g, w, es)
    ensures ValidEvents(network, g, w, es[..i])
    ensures i < |es| ==> ValidEvent(network, g, After(network, w, es[..i]), es[i])
  {
    if i == |es| {
      assert es[..i] == es;
    } else if i < |es| - 1 {
      var init := es[..|es| - 1];
      ValidPrefix(network, g, w, init, i);
      assert init[..i] == es[..i];
    }
  }

  // ---------- levels ----------

  /** The advertised routes are what n's table, right up to level r, looks like to u. */
  ghost predicate Spoken(g: Graph, r: nat, n: NodeId, u: NodeId, routes: seq<Route>) {
    forall d | d in g.nodes :: exists v :: Level(g, r, n, d, v) && View(routes, d) == Received(v, u)
  }

  type Versions = map<NodeId, Version>

  function Low(low: Versions, n: NodeId): Version {
    if n in low then low[n] else Version(0, 0)
  }

  ghost function VersionsOf(g: Graph, w: World): Versions {
    map n | n in g.nodes :: VersionAt(w, n)
  }

  /** Whatever was sent under a version from low on is right up to level r. */
  ghost predicate SentLevel(g: Graph, w: World, r: nat, low: Versions) {
    forall m {:trigger Spoken(g, r, m.from, m.to, m.advertisement.routes)}
      | m in w.sent && AtLeast(VersionOf(m.advertisement), Low(low, m.from)) ::
      Spoken(g, r, m.from, m.to, m.advertisement.routes)
  }

  /** Every node has filed something from every neighbour under a version from low on. */
  ghost predicate AllHeard(g: Graph, w: World, low: Versions) {
    forall u, n {:trigger Recorded(w, u, n, Low(low, n))} | u in g.nodes && n in Links(g, u) ::
      Recorded(w, u, n, Low(low, n)) && n in StateOf(w, u).store
  }

  /** Whatever was recorded from low on is still on file. */
  ghost predicate Filed(g: Graph, w: World, low: Versions) {
    forall u, n {:trigger Recorded(w, u, n, Low(low, n))} | u in g.nodes && n in Links(g, u) ::
      Recorded(w, u, n, Low(low, n)) ==> n in StateOf(w, u).store
  }

  ghost predicate TablesLevel(g: Graph, w: World, r: nat) {
    forall u, d {:trigger Level(g, r, u, d, View(StateOf(w, u).routes, d))} | u in g.nodes && d in g.nodes ::
      Level(g, r, u, d, View(StateOf(w, u).routes, d))
  }

  /** The route n must have had for its advertisement on file at u. */
  ghost function Said(g: Graph, r: nat, n: NodeId, u: NodeId, routes: seq<Route>, d: NodeId): (v: Option<Entry>)
    requires Spoken(g, r, n, u, routes) && d in g.nodes
    ensures Level(g, r, n, d, v) && View(routes, d) == Received(v, u)
  {
    var v :| Level(g, r, n, d, v) && View(routes, d) == Received(v, u);
    v
  }

  lemma OfferOfSaid(column: Column, store: Store, n: NodeId, u: NodeId, d: NodeId)
    requires n in store && View(store[n].advertisement.routes, d) == Received(At(column, n), u)
    ensures Offer(store, n, d) == OfferTo(column, n, u)
  {
  }

  /** A table whose files are all right up to level r is right up to level r + 1. */
  lemma FilesGiveTable(network: IPv6, g: Graph, r: nat, u: NodeId, s: NodeState, d: NodeId)
    requires ValidGraph(g) && u in g.nodes && d in g.nodes && Best(g, u, s)
    requires forall n | n in Links(g, u) :: n in s.store && Spoken(g, r, n, u, s.store[n].advertisement.routes)
    ensures Level(g, r + 1, u, d, View(s.routes, d))
  {
    var column := map n | n in Links(g, u) && Said(g, r, n, u, s.store[n].advertisement.routes, d).Some? ::
                    Said(g, r, n, u, s.store[n].advertisement.routes, d).value;
    forall n | n in Links(g, u)
      ensures Level(g, r, n, d, At(column, n)) && Offer(s.store, n, d) == OfferTo(column, n, u)
    {
      assert At(column, n) == Said(g, r, n, u, s.store[n].advertisement.routes, d);
      OfferOfSaid(column, s.store, n, u, d);
    }
    var v := View(s.routes, d);
    assert s.store.Keys * Links(g, u) == Links(g, u);
    BestIsBestChoice(g, column, s.store, u, d, v);
    LevelUp(g, r, u, d, column, v);
  }

  /** A node that has heard everybody and has no rebuild due. */
  lemma HeardGivesTable(network: IPv6, g: Graph, w: World, r: nat, low: Versions, u: NodeId, d: NodeId)
    requires Consistent(network, g, w) && SentLevel(g, w, r, low) && AllHeard(g, w, low)
    requires u in g.nodes && d in g.nodes && Best(g, u, StateOf(w, u))
    ensures Level(g, r + 1, u, d, View(StateOf(w, u).routes, d))
  {
    var s := StateOf(w, u);
    forall n | n in Links(g, u) ensures n in s.store && Spoken(g, r, n, u, s.store[n].advertisement.routes) {
      assert GoodFile(w, u, n);
      assert Recorded(w, u, n, Low(low, n));
    }
    FilesGiveTable(network, g, r, u, s, d);
  }

  lemma TablesLevelDown(g: Graph, w: World, r: nat, r': nat)
    requires TablesLevel(g, w, r) && r' <= r
    ensures TablesLevel(g, w, r')
  {
    forall u, d | u in g.nodes && d in g.nodes ensures Level(g, r', u, d, View(StateOf(w, u).routes, d)) {
      LevelDown(g, r, r', u, d, View(StateOf(w, u).routes, d));
    }
  }

  lemma OutgoingSpoken(network: IPv6, g: Graph, w: World, n: NodeId, u: NodeId, r: nat)
    requires Consistent(network, g, w) && n in g.nodes && u in Links(g, n) && TablesLevel(g, w, r)
    ensures Spoken(g, r, n, u, Outgoing(w, n, u).advertisement.routes)
  {
    var routes := Outgoing(w, n, u).advertisement.routes;
    OutgoingIsGood(network, g, w, n, u);
    forall d | d in g.nodes ensures exists v :: Level(g, r, n, d, v) && View(routes, d) == Received(v, u) {
      assert Level(g, r, n, d, View(StateOf(w, n).routes, d));
    }
  }

  /** While the tables are right up to level r, so is everything that is sent. */
  lemma StepSpeaks(network: IPv6, g: Graph, w: World, e: Event, r: nat, low: Versions)
    requires Consistent(network, g, w) && ValidEvent(network, g, w, e)
    requires TablesLevel(g, w, r) && SentLevel(g, w, r, low)
    ensures SentLevel(g, Step(network, w, e), r, low)
  {
    if e.Send? {
      OutgoingSpoken(network, g, w, e.from, e.to, r);
      SentMore(g, w, Step(network, w, e), r, low, Outgoing(w, e.from, e.to));
    }
  }

  lemma SentMore(g: Graph, w: World, w': World, r: nat, low: Versions, m: Message)
    requires SentLevel(g, w, r, low) && w'.sent == w.sent + {m} && Spoken(g, r, m.from, m.to, m.advertisement.routes)
    ensures SentLevel(g, w', r, low)
  {
  }

  lemma StepFiles(network: IPv6, g: Graph, w: World, e: Event, low: Versions)
    requires Consistent(network, g, w) && ValidEvent(network, g, w, e) && Filed(g, w, low)
    ensures Filed(g, Step(network, w, e), low)
  {
    if e.Deliver? {
      var m := e.message;
      TakeInGuard(network, StateOf(w, m.to), Incoming(m, e.at, e.storedAt));
    }
    var w' := Step(network, w, e);
    forall u, n | u in g.nodes && n in Links(g, u) && Recorded(w', u, n, Low(low, n))
      ensures n in StateOf(w', u).store
    {
      assert Recorded(w, u, n, Low(low, n)) || (e.Deliver? && e.message.to == u && e.message.from == n);
    }
  }

  lemma StepHears(network: IPv6, g: Graph, w: World, e: Event, low: Versions)
    requires ValidEvent(network, g, w, e) && AllHeard(g, w, low)
    ensures AllHeard(g, Step(network, w, e), low)
  {
    forall u, n | u in g.nodes && n in Links(g, u)
      ensures Recorded(Step(network, w, e), u, n, Low(low, n)) && n in StateOf(Step(network, w, e), u).store
    {
      StepGrows(network, g, w, e, u, n, Low(low, n));
    }
  }

  /** The state of affairs after r epochs: all tables are right up to level r, and the last epoch brought everybody
      news, all of it right up to level r - 1. */
  ghost predicate Settled(network: IPv6, g: Graph, w: World, r: nat, low: Versions) {
    Consistent(network, g, w) && TablesLevel(g, w, r) && (r > 0 ==> SentLevel(g, w, r - 1, low) && AllHeard(g, w, low))
  }

  lemma ZeroTables(g: Graph, w: World, r: nat)
    requires ValidGraph(g) && r == 0
    ensures TablesLevel(g, w, r)
  {
    forall u, d | u in g.nodes && d in g.nodes ensures Level(g, r, u, d, View(StateOf(w, u).routes, d)) {
      LevelZero(g, u, d, View(StateOf(w, u).routes, d));
    }
  }

  /** News from one level below, applied to a table that is not rebuilt yet, does no harm. */
  lemma DeliverKeepsLevel(network: IPv6, g: Graph, w: World, m: Message, r: Reception, level: nat, d: NodeId)
    requires Consistent(network, g, w) && m in w.sent && r.sender == m.from && r.advertisement == m.advertisement
    requires Accepted(network, StateOf(w, m.to).origins, r) && d in g.nodes
    requires Spoken(g, level, m.from, m.to, m.advertisement.routes)
    requires Level(g, level + 1, m.to, d, View(StateOf(w, m.to).routes, d))
    ensures Level(g, level + 1, m.to, d, View(TakeIn(network, StateOf(w, m.to), r).0.routes, d))
  {
    assert GoodMessage(network, g, w, m);
    assert GoodNode(network, g, m.to, NodeOf(w, m.to));
    TakenInView(network, g, StateOf(w, m.to), r);
    var said := Said(g, level, m.from, m.to, m.advertisement.routes, d);
    TakenKeepsLevel(g, level, m.to, m.from, d, View(StateOf(w, m.to).routes, d), said);
  }

  lemma DeliverKeepsTables(network: IPv6, g: Graph, w: World, e: Event, r: nat, r': nat, low: Versions)
    requires Consistent(network, g, w) && ValidEvent(network, g, w, e) && e.Deliver?
    requires r' == r + 1 && TablesLevel(g, w, r') && SentLevel(g, w, r, low) && AllHeard(g, w, low)
    ensures TablesLevel(g, Step(network, w, e), r')
  {
    var m, w' := e.message, Step(network, w, e);
    var incoming := Incoming(m, e.at, e.storedAt);
    TakeInGuard(network, StateOf(w, m.to), incoming);
    if Accepted(network, StateOf(w, m.to).origins, incoming) {
      AcceptedIsSpoken(network, g, w, m, incoming, r, low);
    }
    forall u, d | u in g.nodes && d in g.nodes ensures Level(g, r', u, d, View(StateOf(w', u).routes, d)) {
      assert Level(g, r', u, d, View(StateOf(w, u).routes, d));
      if u == m.to && Accepted(network, StateOf(w, m.to).origins, incoming) {
        DeliverKeepsLevel(network, g, w, m, incoming, r, d);
      } else {
        assert StateOf(w', u) == StateOf(w, u);
      }
    }
  }

  /** What is accepted is newer than what is on record, and so from low on. */
  lemma AcceptedIsSpoken(network: IPv6, g: Graph, w: World, m: Message, incoming: Reception, r: nat, low: Versions)
    requires Consistent(network, g, w) && m in w.sent && SentLevel(g, w, r, low) && AllHeard(g, w, low)
    requires incoming.sender == m.from && incoming.advertisement == m.advertisement
    requires Accepted(network, StateOf(w, m.to).origins, incoming)
    ensures Spoken(g, r, m.from, m.to, m.advertisement.routes)
  {
    assert GoodMessage(network, g, w, m);
    assert Recorded(w, m.to, m.from, Low(low, m.from));
  }

  lemma RefreshKeepsTables(network: IPv6, g: Graph, w: World, e: Event, r: nat, r': nat, low: Versions)
    requires Consistent(network, g, w) && ValidEvent(network, g, w, e) && e.Refresh?
    requires r' == r + 1 && TablesLevel(g, w, r') && SentLevel(g, w, r, low) && AllHeard(g, w, low)
    ensures TablesLevel(g, Step(network, w, e), r')
  {
    var w' := Step(network, w, e);
    StepKeeps(network, g, w, e);
    StepHears(network, g, w, e, low);
    assert GoodNode(network, g, e.node, NodeOf(w', e.node));
    forall u, d | u in g.nodes && d in g.nodes ensures Level(g, r', u, d, View(StateOf(w', u).routes, d)) {
      if u == e.node {
        HeardGivesTable(network, g, w', r, low, u, d);
      } else {
        assert StateOf(w', u) == StateOf(w, u);
        assert Level(g, r', u, d, View(StateOf(w, u).routes, d));
      }
    }
  }

  lemma SendKeepsTables(network: IPv6, g: Graph, w: World, n: NodeId, u: NodeId, r: nat)
    requires TablesLevel(g, w, r)
    ensures TablesLevel(g, Step(network, w, Send(n, u)), r)
  {
    var w' := Step(network, w, Send(n, u));
    forall x, d | x in g.nodes && d in g.nodes ensures Level(g, r, x, d, View(StateOf(w', x).routes, d)) {
      assert StateOf(w', x) == StateOf(w, x) && Level(g, r, x, d, View(StateOf(w, x).routes, d));
    }
  }

  /** Every event leaves the tables right up to their level. */
  lemma StepKeepsTables(network: IPv6, g: Graph, w: World, e: Event, r: nat, r': nat, low: Versions)
    requires Consistent(network, g, w) && ValidEvent(network, g, w, e) && r' == r + 1
    requires TablesLevel(g, w, r') && SentLevel(g, w, r, low) && AllHeard(g, w, low)
    ensures TablesLevel(g, Step(network, w, e), r')
  {
    match e
    case Send(n, u) => SendKeepsTables(network, g, w, n, u, r');
    case Deliver(_, _, _) => DeliverKeepsTables(network, g, w, e, r, r', low);
    case Refresh(_, _, _) => RefreshKeepsTables(network, g, w, e, r, r', low);
  }

  lemma StepStaysHeard(network: IPv6, g: Graph, w: World, e: Event, r: nat, r': nat, low: Versions)
    requires Consistent(network, g, w) && ValidEvent(network, g, w, e) && r' == r + 1
    requires TablesLevel(g, w, r') && SentLevel(g, w, r, low) && AllHeard(g, w, low)
    ensures SentLevel(g, Step(network, w, e), r, low) && AllHeard(g, Step(network, w, e), low)
    ensures TablesLevel(g, Step(network, w, e), r')
  {
    TablesLevelDown(g, w, r', r);
    StepSpeaks(network, g, w, e, r, low);
    StepHears(network, g, w, e, low);
    StepKeepsTables(network, g, w, e, r, r', low);
  }

  lemma StepStaysSettled(network: IPv6, g: Graph, w: World, e: Event, r: nat, low: Versions)
    requires Settled(network, g, w, r, low) && ValidEvent(network, g, w, e)
    ensures Settled(network, g, Step(network, w, e), r, low)
  {
    StepKeeps(network, g, w, e);
    if r > 0 {
      StepStaysHeard(network, g, w, e, r - 1, r, low);
    } else {
      ZeroTables(g, Step(network, w, e), r);
    }
  }

  /** In the course of an epoch that starts with the versions of mark, everything new is right up to level r and filed.
      */
  lemma {:induction false} DuringEpoch(network: IPv6, g: Graph, w: World, es: seq<Event>, r: nat, low: Versions)
    requires Settled(network, g, w, r, low) && ValidEvents(network, g, w, es)
    ensures var w', mark := After(network, w, es), VersionsOf(g, w);
            Settled(network, g, w', r, low) && SentLevel(g, w', r, mark) && Filed(g, w', mark)
  {
    var mark := VersionsOf(g, w);
    if es == [] {
      NothingNew(network, g, w, r);
    } else {
      var init, last := es[..|es| - 1], es[|es| - 1];
      ValidPrefix(network, g, w, es, |es| - 1);
      DuringEpoch(network, g, w, init, r, low);
      var w' := After(network, w, init);
      StepStaysSettled(network, g, w', last, r, low);
      StepSpeaks(network, g, w', last, r, mark);
      StepFiles(network, g, w', last, mark);
    }
  }

  /** Nothing sent or recorded so far carries a version that is still to be stamped. */
  lemma NothingNew(network: IPv6, g: Graph, w: World, r: nat)
    requires Consistent(network, g, w)
    ensures SentLevel(g, w, r, VersionsOf(g, w)) && Filed(g, w, VersionsOf(g, w))
  {
    forall m | m in w.sent ensures !AtLeast(VersionOf(m.advertisement), Low(VersionsOf(g, w), m.from)) {
      assert GoodMessage(network, g, w, m);
    }
    forall u, n | u in g.nodes && n in Links(g, u) ensures !Recorded(w, u, n, Low(VersionsOf(g, w), n)) {
      assert GoodFile(w, u, n);
    }
  }

  // ---------- epochs ----------

  /** At step i n tells u its table and at step j that message arrives; much else may happen before, between and after.
      */
  ghost predicate Tells(network: IPv6, w: World, es: seq<Event>, n: NodeId, u: NodeId, i: nat, j: nat) {
    && i < j < |es| && es[i] == Send(n, u)
    && es[j].Deliver? && es[j].message == Outgoing(After(network, w, es[..i]), n, u)
  }

  /** Every rebuild that was due has taken place. */
  ghost predicate NoneDue(g: Graph, w: World) {
    forall u {:trigger NodeOf(w, u)} | u in g.nodes :: !NodeOf(w, u).due
  }

  /** In an epoch every node gets at least one advertisement across to each of its neighbours, and in the end no
      rebuild is due. */
  ghost predicate Epoch(network: IPv6, g: Graph, w: World, es: seq<Event>) {
    && ValidEvents(network, g, w, es)
    && (forall u, n | u in g.nodes && n in Links(g, u) :: exists i, j :: Tells(network, w, es, n, u, i, j))
    && NoneDue(g, After(network, w, es))
  }

  lemma DeliveredIsRecorded(network: IPv6, g: Graph, w: World, e: Event)
    requires Consistent(network, g, w) && e.Deliver? && ValidEvent(network, g, w, e)
    ensures Recorded(Step(network, w, e), e.message.to, e.message.from, VersionOf(e.message.advertisement))
  {
    var m := e.message;
    assert GoodMessage(network, g, w, m);
    TakeInGuard(network, StateOf(w, m.to), Incoming(m, e.at, e.storedAt));
  }

  lemma {:induction false} RunKeeps(network: IPv6, g: Graph, w: World, es: seq<Event>)
    requires Consistent(network, g, w) && ValidEvents(network, g, w, es)
    ensures Consistent(network, g, After(network, w, es))
  {
    if es != [] {
      ValidPrefix(network, g, w, es, |es| - 1);
      RunKeeps(network, g, w, es[..|es| - 1]);
      StepKeeps(network, g, After(network, w, es[..|es| - 1]), es[|es| - 1]);
    }
  }

  lemma AfterNext(network: IPv6, w: World, es: seq<Event>, j: nat)
    requires j < |es|
    ensures After(network, w, es[..j + 1]) == Step(network, After(network, w, es[..j]), es[j])
  {
    assert es[..j + 1][..j] == es[..j];
  }

  lemma SentIsNew(network: IPv6, g: Graph, w: World, es: seq<Event>, n: NodeId, i: nat)
    requires ValidEvents(network, g, w, es) && i <= |es|
    ensures AtLeast(VersionAt(After(network, w, es[..i]), n), VersionAt(w, n))
  {
    ValidPrefix(network, g, w, es, i);
    assert es[..i][..0] == [];
    RunGrows(network, g, w, es[..i], 0, n, n, VersionAt(w, n));
  }

  lemma ArrivedIsRecorded(network: IPv6, g: Graph, w: World, es: seq<Event>, j: nat)
    requires Consistent(network, g, w) && ValidEvents(network, g, w, es) && j < |es| && es[j].Deliver?
    ensures var m := es[j].message;
            Recorded(After(network, w, es[..j + 1]), m.to, m.from, VersionOf(m.advertisement))
  {
    ValidPrefix(network, g, w, es, j);
    RunKeeps(network, g, w, es[..j]);
    AfterNext(network, w, es, j);
    DeliveredIsRecorded(network, g, After(network, w, es[..j]), es[j]);
  }

  /** The message that arrives carries the version n had when it spoke. */
  lemma ToldVersion(network: IPv6, w: World, es: seq<Event>, n: NodeId, u: NodeId, i: nat, j: nat)
    requires Tells(network, w, es, n, u, i, j)
    ensures i < j < |es| && es[j].Deliver?
    ensures var m := es[j].message;
            m.from == n && m.to == u && VersionOf(m.advertisement) == VersionAt(After(network, w, es[..i]), n)
  {
  }

  lemma ArrivedStays(network: IPv6, g: Graph, w: World, es: seq<Event>, m: Message, j: nat, low: Version)
    requires Consistent(network, g, w) && ValidEvents(network, g, w, es)
    requires j < |es| && es[j].Deliver? && es[j].message == m && AtLeast(VersionOf(m.advertisement), low)
    ensures Recorded(After(network, w, es), m.to, m.from, low)
  {
    ArrivedIsRecorded(network, g, w, es, j);
    RecordedStays(network, g, w, es, j + 1, m.to, m.from, VersionOf(m.advertisement), low);
  }

  /** What n got across to u in the epoch is on record at its end. */
  lemma ToldIsRecorded(network: IPv6, g: Graph, w: World, es: seq<Event>, n: NodeId, u: NodeId, i: nat, j: nat)
    requires Consistent(network, g, w) && ValidEvents(network, g, w, es) && Tells(network, w, es, n, u, i, j)
    ensures Recorded(After(network, w, es), u, n, VersionAt(w, n))
  {
    ToldVersion(network, w, es, n, u, i, j);
    SentIsNew(network, g, w, es, n, i);
    ArrivedStays(network, g, w, es, es[j].message, j, VersionAt(w, n));
  }

  lemma HeardGivesTables(network: IPv6, g: Graph, w: World, r: nat, low: Versions)
    requires Consistent(network, g, w) && SentLevel(g, w, r, low) && AllHeard(g, w, low) && NoneDue(g, w)
    ensures TablesLevel(g, w, r + 1)
  {
    forall u, d | u in g.nodes && d in g.nodes ensures Level(g, r + 1, u, d, View(StateOf(w, u).routes, d)) {
      assert GoodNode(network, g, u, NodeOf(w, u));
      HeardGivesTable(network, g, w, r, low, u, d);
    }
  }

  lemma EpochIsHeard(network: IPv6, g: Graph, w: World, es: seq<Event>)
    requires Consistent(network, g, w) && Epoch(network, g, w, es) && Filed(g, After(network, w, es), VersionsOf(g, w))
    ensures AllHeard(g, After(network, w, es), VersionsOf(g, w))
  {
    var w', mark := After(network, w, es), VersionsOf(g, w);
    forall u, n | u in g.nodes && n in Links(g, u)
      ensures Recorded(w', u, n, Low(mark, n)) && n in StateOf(w', u).store
    {
      var i, j :| Tells(network, w, es, n, u, i, j);
      ToldIsRecorded(network, g, w, es, n, u, i, j);
    }
  }

  /** An epoch takes every table one level up. */
  lemma EpochSettles(network: IPv6, g: Graph, w: World, es: seq<Event>, r: nat, low: Versions)
    requires Settled(network, g, w, r, low) && Epoch(network, g, w, es)
    ensures Settled(network, g, After(network, w, es), r + 1, VersionsOf(g, w))
  {
    DuringEpoch(network, g, w, es, r, low);
    EpochIsHeard(network, g, w, es);
    HeardGivesTables(network, g, After(network, w, es), r, VersionsOf(g, w));
  }

  ghost function AfterEpochs(network: IPv6, w: World, epochs: seq<seq<Event>>): World {
    if epochs == [] then w
    else After(network, AfterEpochs(network, w, epochs[..|epochs| - 1]), epochs[|epochs| - 1])
  }

  ghost predicate EpochRun(network: IPv6, g: Graph, w: World, epochs: seq<seq<Event>>) {
    forall i | 0 <= i < |epochs| :: Epoch(network, g, AfterEpochs(network, w, epochs[..i]), epochs[i])
  }

  lemma EpochsPrefix(network: IPv6, g: Graph, w: World, epochs: seq<seq<Event>>)
    requires EpochRun(network, g, w, epochs) && epochs != []
    ensures EpochRun(network, g, w, epochs[..|epochs| - 1])
    ensures Epoch(network, g, AfterEpochs(network, w, epochs[..|epochs| - 1]), epochs[|epochs| - 1])
  {
    var init := epochs[..|epochs| - 1];
    forall i | 0 <= i < |init| ensures Epoch(network, g, AfterEpochs(network, w, init[..i]), init[i]) {
      assert init[..i] == epochs[..i];
    }
  }

  lemma {:induction false} EpochsSettle(network: IPv6, g: Graph, w: World, epochs: seq<seq<Event>>)
      returns (low: Versions)
    requires Consistent(network, g, w) && EpochRun(network, g, w, epochs)
    ensures Settled(network, g, AfterEpochs(network, w, epochs), |epochs|, low)
  {
    low := map[];
    if epochs == [] {
      ZeroTables(g, w, |epochs|);
    } else {
      var init, last := epochs[..|epochs| - 1], epochs[|epochs| - 1];
      EpochsPrefix(network, g, w, epochs);
      low := EpochsSettle(network, g, w, init);
      EpochSettles(network, g, AfterEpochs(network, w, init), last, |init|, low);
      low := VersionsOf(g, AfterEpochs(network, w, init));
    }
  }

  ghost function TablesOf(w: World): Tables {
    map u | u in w.nodes :: w.nodes[u].state.routes
  }

  /** After r epochs, and at any moment afterwards, every route is right up to level r. */
  lemma LevelAfterEpochs(network: IPv6, g: Graph, w: World, epochs: seq<seq<Event>>, later: seq<Event>)
    requires Consistent(network, g, w) && EpochRun(network, g, w, epochs)
    requires ValidEvents(network, g, AfterEpochs(network, w, epochs), later)
    ensures var w' := After(network, AfterEpochs(network, w, epochs), later);
            Consistent(network, g, w') && TablesLevel(g, w', |epochs|)
  {
    var low := EpochsSettle(network, g, w, epochs);
    DuringEpoch(network, g, AfterEpochs(network, w, epochs), later, |epochs|, low);
  }

  /** Self-stabilisation without rounds: whatever the nodes had in their tables and on file and whatever was on its
      way, after 16 epochs every table holds exactly the shortest-path routes, and it does so at every moment from then
      on, also in the middle of a reception. */
  lemma AsynchronousStabilisation(network: IPv6, g: Graph, w: World, epochs: seq<seq<Event>>, later: seq<Event>)
    requires Consistent(network, g, w) && EpochRun(network, g, w, epochs) && |epochs| >= ROUTE_METRIC_INFINITY
    requires ValidEvents(network, g, AfterEpochs(network, w, epochs), later)
    ensures Converged(g, TablesOf(After(network, AfterEpochs(network, w, epochs), later)))
  {
    var w' := After(network, AfterEpochs(network, w, epochs), later);
    LevelAfterEpochs(network, g, w, epochs, later);
    forall u, d | u in g.nodes && d in g.nodes ensures Ideal(g, u, d, View(TableOf(TablesOf(w'), u), d)) {
      assert TableOf(TablesOf(w'), u) == StateOf(w', u).routes;
      LevelIsIdeal(g, |epochs|, u, d, View(StateOf(w', u).routes, d));
    }
  }
}
