/** That there is something to converge: as long as sequence numbers last, every consistent world has any number of
    epochs ahead of it. */
module Schedules {
  import opened Bytes
  import opened Sequences
  import opened Routing
  import opened Rebuild
  import opened Daemon
  import opened Graph
  import opened Network
  import opened Asynchronous
  import opened Epochs

  // ---------- epochs are always possible ----------

  lemma AppendedEvent(network: IPv6, g: Graph, w: World, es: seq<Event>, e: Event)
    requires ValidEvents(network, g, w, es) && ValidEvent(network, g, After(network, w, es), e)
    ensures ValidEvents(network, g, w, es + [e])
            && After(network, w, es + [e]) == Step(network, After(network, w, es), e)
  {
    Appended(es, e);
  }

  lemma StillTells(network: IPv6, w: World, es: seq<Event>, more: seq<Event>, n: NodeId, u: NodeId, i: nat, j: nat)
    requires Tells(network, w, es, n, u, i, j) && es <= more
    ensures Tells(network, w, more, n, u, i, j)
  {
    assert more[..i] == es[..i];
  }

  ghost predicate AtMostMore(w: World, w': World, k: nat) {
    forall x :: VersionAt(w', x).sequence <= VersionAt(w, x).sequence + k
  }

  lemma MoreAndMore(w: World, w': World, w'': World, k: nat, j: nat)
    requires AtMostMore(w, w', k) && AtMostMore(w', w'', j)
    ensures AtMostMore(w, w'', k + j)
  {
    forall x ensures VersionAt(w'', x).sequence <= VersionAt(w, x).sequence + (k + j) {
      assert VersionAt(w', x).sequence <= VersionAt(w, x).sequence + k;
    }
  }

  lemma SendThenDeliver(network: IPv6, g: Graph, w: World, n: NodeId, u: NodeId, deliver: Event)
    requires ValidEvent(network, g, w, Send(n, u))
    requires deliver == Deliver(Outgoing(w, n, u), 0, 0)
    ensures ValidEvent(network, g, Step(network, w, Send(n, u)), deliver)
    ensures AtMostMore(w, Step(network, Step(network, w, Send(n, u)), deliver), 1)
  {
    var w1 := Step(network, w, Send(n, u));
    forall x ensures VersionAt(Step(network, w1, deliver), x) == VersionAt(w1, x) {}
  }

  /** n tells u, and it arrives at once. */
  lemma TellNow(network: IPv6, g: Graph, w: World, es: seq<Event>, n: NodeId, u: NodeId)
      returns (more: seq<Event>)
    requires ValidEvents(network, g, w, es)
    requires n in g.nodes && u in Links(g, n) && VersionAt(After(network, w, es), n).sequence + 1 < SEQUENCE_RANGE
    ensures es <= more && |more| == |es| + 2 && ValidEvents(network, g, w, more)
    ensures Tells(network, w, more, n, u, |es|, |es| + 1)
    ensures AtMostMore(After(network, w, es), After(network, w, more), 1)
  {
    var w1 := After(network, w, es);
    var send, deliver := Send(n, u), Deliver(Outgoing(w1, n, u), 0, 0);
    SendThenDeliver(network, g, w1, n, u, deliver);
    AppendedEvent(network, g, w, es, send);
    AppendedEvent(network, g, w, es + [send], deliver);
    more := es + [send] + [deliver];
    assert more[..|es|] == es;
  }

  /** Pair number k has been told at steps 2k and 2k + 1. */
  ghost predicate AllTold(network: IPv6, w: World, es: seq<Event>, pairs: seq<(NodeId, NodeId)>) {
    |es| == 2 * |pairs| && forall k | 0 <= k < |pairs| ::
        Tells(network, w, es, pairs[k].0, pairs[k].1, 2 * k, 2 * k + 1)
  }

  lemma OneMoreTold(network: IPv6, w: World, es: seq<Event>, more: seq<Event>, pairs: seq<(NodeId, NodeId)>,
                    p: (NodeId, NodeId))
    requires AllTold(network, w, es, pairs) && es <= more && |more| == |es| + 2
    requires Tells(network, w, more, p.0, p.1, |es|, |es| + 1)
    ensures AllTold(network, w, more, pairs + [p])
  {
    forall k | 0 <= k < |pairs| ensures Tells(network, w, more, pairs[k].0, pairs[k].1, 2 * k, 2 * k + 1) {
      StillTells(network, w, es, more, pairs[k].0, pairs[k].1, 2 * k, 2 * k + 1);
    }
  }

  ghost predicate Scheduled(network: IPv6, g: Graph, w: World, es: seq<Event>, pairs: seq<(NodeId, NodeId)>) {
    && ValidEvents(network, g, w, es) && AllTold(network, w, es, pairs)
    && AtMostMore(w, After(network, w, es), |pairs|)
  }

  /** Every node can still stamp k advertisements. */
  ghost predicate Room(g: Graph, w: World, k: nat) {
    forall n {:trigger VersionAt(w, n)} | n in g.nodes :: VersionAt(w, n).sequence + k < SEQUENCE_RANGE
  }

  predicate IsLink(g: Graph, p: (NodeId, NodeId)) {
    p.0 in g.nodes && p.1 in Links(g, p.0)
  }

  lemma ScheduleOne(network: IPv6, g: Graph, w: World, before: seq<Event>, pairs: seq<(NodeId, NodeId)>)
      returns (es: seq<Event>)
    requires pairs != []
    requires Scheduled(network, g, w, before, pairs[..|pairs| - 1])
    requires IsLink(g, pairs[|pairs| - 1]) && Room(g, w, |pairs|)
    ensures Scheduled(network, g, w, es, pairs)
  {
    var init, p := pairs[..|pairs| - 1], pairs[|pairs| - 1];
    assert init + [p] == pairs;
    assert VersionAt(After(network, w, before), p.0).sequence <= VersionAt(w, p.0).sequence + |init|;
    es := TellNow(network, g, w, before, p.0, p.1);
    OneMoreTold(network, w, before, es, init, p);
    MoreAndMore(w, After(network, w, before), After(network, w, es), |init|, 1);
  }

  lemma ScheduleNone(network: IPv6, g: Graph, w: World, pairs: seq<(NodeId, NodeId)>)
    requires pairs == []
    ensures Scheduled(network, g, w, [], pairs)
  {
  }

  lemma LessRoom(g: Graph, w: World, k: nat, k': nat)
    requires Room(g, w, k) && k' <= k
    ensures Room(g, w, k')
  {
  }

  lemma {:induction false} Schedule(network: IPv6, g: Graph, w: World, pairs: seq<(NodeId, NodeId)>)
      returns (es: seq<Event>)
    requires (forall p | p in pairs :: IsLink(g, p)) && Room(g, w, |pairs|)
    ensures Scheduled(network, g, w, es, pairs)
  {
    if pairs == [] {
      es := [];
      ScheduleNone(network, g, w, pairs);
    } else {
      LessRoom(g, w, |pairs|, |pairs| - 1);
      var before := Schedule(network, g, w, pairs[..|pairs| - 1]);
      es := ScheduleOne(network, g, w, before, pairs);
    }
  }

  ghost predicate NoneDueAmong(w: World, nodes: seq<NodeId>) {
    forall u | u in nodes :: !NodeOf(w, u).due
  }

  /** Rebuilding at every node in turn. */
  lemma {:induction false} RefreshAll(network: IPv6, g: Graph, w: World, s: Snapshot, es: seq<Event>,
                                      nodes: seq<NodeId>)
      returns (more: seq<Event>)
    requires ValidSnapshot(network, g, s) && ValidEvents(network, g, w, es) && forall u | u in nodes :: u in g.nodes
    ensures es <= more && ValidEvents(network, g, w, more) && NoneDueAmong(After(network, w, more), nodes)
    ensures AtMostMore(After(network, w, es), After(network, w, more), 0)
  {
    if nodes == [] {
      return es;
    }
    var init, u := nodes[..|nodes| - 1], nodes[|nodes| - 1];
    assert nodes == init + [u];
    var before := RefreshAll(network, g, w, s, es, init);
    more := RefreshOne(network, g, w, s, before, init, u);
    MoreAndMore(After(network, w, es), After(network, w, before), After(network, w, more), 0, 0);
  }

  lemma RefreshOne(network: IPv6, g: Graph, w: World, s: Snapshot, before: seq<Event>, init: seq<NodeId>, u: NodeId)
      returns (more: seq<Event>)
    requires ValidSnapshot(network, g, s) && ValidEvents(network, g, w, before) && u in g.nodes
    requires NoneDueAmong(After(network, w, before), init)
    ensures before <= more && ValidEvents(network, g, w, more) && NoneDueAmong(After(network, w, more), init + [u])
    ensures AtMostMore(After(network, w, before), After(network, w, more), 0)
  {
    var e := Refresh(u, PeersOf(s, u), s.now);
    assert SeesLinks(network, g, u, PeersOf(s, u), s.now);
    AppendedEvent(network, g, w, before, e);
    more := before + [e];
    OneLessDue(network, After(network, w, before), e, init, u);
  }

  lemma OneLessDue(network: IPv6, w: World, e: Event, init: seq<NodeId>, u: NodeId)
    requires e.Refresh? && e.node == u && NoneDueAmong(w, init)
    ensures NoneDueAmong(Step(network, w, e), init + [u]) && AtMostMore(w, Step(network, w, e), 0)
  {
  }

  /** An epoch, given the links and the nodes as lists and peer lists that show the links. */
  lemma EpochAhead(network: IPv6, g: Graph, w: World, s: Snapshot, pairs: seq<(NodeId, NodeId)>, nodes: seq<NodeId>)
      returns (es: seq<Event>)
    requires Consistent(network, g, w) && ValidSnapshot(network, g, s)
    requires forall n, u :: (n, u) in pairs <==> n in g.nodes && u in Links(g, n)
    requires (forall u :: u in nodes <==> u in g.nodes) && Room(g, w, |pairs|)
    ensures Epoch(network, g, w, es) && AtMostMore(w, After(network, w, es), |pairs|)
  {
    forall p | p in pairs ensures IsLink(g, p) {
      assert (p.0, p.1) in pairs;
    }
    var told := Schedule(network, g, w, pairs);
    es := RefreshAll(network, g, w, s, told, nodes);
    MoreAndMore(w, After(network, w, told), After(network, w, es), |pairs|, 0);
    forall u, n | u in g.nodes && n in Links(g, u) ensures exists i, j :: Tells(network, w, es, n, u, i, j) {
      assert n in g.nodes && u in Links(g, n);
      PairTold(network, w, told, es, pairs, n, u);
    }
  }

  lemma PairTold(network: IPv6, w: World, es: seq<Event>, more: seq<Event>, pairs: seq<(NodeId, NodeId)>, n: NodeId,
                 u: NodeId)
    requires AllTold(network, w, es, pairs) && es <= more && (n, u) in pairs
    ensures exists i, j :: Tells(network, w, more, n, u, i, j)
  {
    var k :| 0 <= k < |pairs| && pairs[k] == (n, u);
    StillTells(network, w, es, more, n, u, 2 * k, 2 * k + 1);
  }

  // ---------- lists of nodes and links ----------

  lemma {:induction false} EnumerationSize(ids: seq<NodeId>, s: set<NodeId>)
    requires Enumerates(ids, s)
    ensures |ids| == |s|
  {
    if ids != [] {
      var init, x := ids[..|ids| - 1], ids[|ids| - 1];
      forall y ensures y in init <==> y in s - {x} {
        assert y in ids <==> y in init || y == x;
      }
      EnumerationSize(init, s - {x});
    } else {
      assert s == {};
    }
  }

  ghost function From(n: NodeId, ids: seq<NodeId>): (pairs: seq<(NodeId, NodeId)>)
    ensures |pairs| == |ids| && forall x, u :: (x, u) in pairs <==> x == n && u in ids
  {
    if ids == [] then [] else From(n, ids[..|ids| - 1]) + [(n, ids[|ids| - 1])]
  }

  /** The links of the nodes listed, in both directions. */
  ghost function LinksFrom(g: Graph, nodes: seq<NodeId>): seq<(NodeId, NodeId)> {
    if nodes == [] then []
    else LinksFrom(g, nodes[..|nodes| - 1]) + From(nodes[|nodes| - 1], SortedIds(Links(g, nodes[|nodes| - 1])))
  }

  lemma {:induction false} LinksFromAre(g: Graph, nodes: seq<NodeId>, n: NodeId, u: NodeId)
    ensures (n, u) in LinksFrom(g, nodes) <==> n in nodes && u in Links(g, n)
  {
    if nodes != [] {
      LinksFromAre(g, nodes[..|nodes| - 1], n, u);
      assert nodes == nodes[..|nodes| - 1] + [nodes[|nodes| - 1]];
    }
  }

  lemma {:induction false} LinksFromSize(g: Graph, nodes: seq<NodeId>)
    requires ValidGraph(g) && forall n | n in nodes :: n in g.nodes
    ensures |LinksFrom(g, nodes)| <= MAX_ROUTE_TABLE_ENTRIES * |nodes|
  {
    if nodes != [] {
      var n := nodes[|nodes| - 1];
      LinksFromSize(g, nodes[..|nodes| - 1]);
      EnumerationSize(SortedIds(Links(g, n)), Links(g, n));
      SubsetSize(Links(g, n), g.nodes);
    }
  }

  /** At most 16 nodes with at most 16 links each. */
  const STAMPS: nat := MAX_ROUTE_TABLE_ENTRIES * MAX_ROUTE_TABLE_ENTRIES

  lemma NodesAndLinks(g: Graph) returns (nodes: seq<NodeId>, pairs: seq<(NodeId, NodeId)>)
    requires ValidGraph(g)
    ensures forall u :: u in nodes <==> u in g.nodes
    ensures |pairs| <= STAMPS && forall n, u :: (n, u) in pairs <==> n in g.nodes && u in Links(g, n)
  {
    nodes := SortedIds(g.nodes);
    pairs := LinksFrom(g, nodes);
    EnumerationSize(nodes, g.nodes);
    LinksFromSize(g, nodes);
    forall n, u ensures (n, u) in pairs <==> n in g.nodes && u in Links(g, n) {
      LinksFromAre(g, nodes, n, u);
    }
  }

  /** While sequence numbers last, every consistent world has an epoch ahead of it. */
  lemma EpochExists(network: IPv6, g: Graph, w: World) returns (es: seq<Event>)
    requires Consistent(network, g, w) && Room(g, w, STAMPS)
    ensures Epoch(network, g, w, es) && AtMostMore(w, After(network, w, es), STAMPS)
  {
    var nodes, pairs := NodesAndLinks(g);
    AllUpIsValid(network, g);
    LessRoom(g, w, STAMPS, |pairs|);
    es := EpochAhead(network, g, w, AllUp(network, g), pairs, nodes);
    MoreAndMore(w, After(network, w, es), After(network, w, es), |pairs|, STAMPS - |pairs|);
  }

  // ---------- any number of epochs ----------

  lemma AppendedEpoch(network: IPv6, g: Graph, w: World, epochs: seq<seq<Event>>, es: seq<Event>)
    requires EpochRun(network, g, w, epochs) && Epoch(network, g, AfterEpochs(network, w, epochs), es)
    ensures EpochRun(network, g, w, epochs + [es])
    ensures AfterEpochs(network, w, epochs + [es]) == After(network, AfterEpochs(network, w, epochs), es)
  {
    var more := epochs + [es];
    assert more[..|epochs|] == epochs;
    forall i | 0 <= i < |more| ensures Epoch(network, g, AfterEpochs(network, w, more[..i]), more[i]) {
      assert more[..i] == epochs[..i];
    }
  }

  lemma RoomAfter(g: Graph, w: World, w': World, used: nat, k: nat)
    requires Room(g, w, used + k) && AtMostMore(w, w', used)
    ensures Room(g, w', k)
  {
    forall n | n in g.nodes ensures VersionAt(w', n).sequence + k < SEQUENCE_RANGE {
      assert VersionAt(w, n).sequence + (used + k) < SEQUENCE_RANGE;
    }
  }

  /** While sequence numbers last, every consistent world has as many epochs ahead of it as one likes. */
  lemma {:induction false} EpochRunExists(network: IPv6, g: Graph, w: World, k: nat) returns (epochs: seq<seq<Event>>)
    requires Consistent(network, g, w) && Room(g, w, STAMPS * k)
    ensures |epochs| == k && EpochRun(network, g, w, epochs) && Consistent(network, g, AfterEpochs(network, w, epochs))
    ensures AtMostMore(w, AfterEpochs(network, w, epochs), STAMPS * k)
  {
    if k == 0 {
      return [];
    }
    LessRoom(g, w, STAMPS * k, STAMPS * (k - 1));
    var before := EpochRunExists(network, g, w, k - 1);
    epochs := OneMoreEpoch(network, g, w, before, STAMPS * (k - 1));
  }

  lemma OneMoreEpoch(network: IPv6, g: Graph, w: World, before: seq<seq<Event>>, used: nat)
      returns (epochs: seq<seq<Event>>)
    requires EpochRun(network, g, w, before) && Consistent(network, g, AfterEpochs(network, w, before))
    requires AtMostMore(w, AfterEpochs(network, w, before), used) && Room(g, w, used + STAMPS)
    ensures |epochs| == |before| + 1 && EpochRun(network, g, w, epochs)
    ensures Consistent(network, g, AfterEpochs(network, w, epochs))
    ensures AtMostMore(w, AfterEpochs(network, w, epochs), used + STAMPS)
  {
    var w' := AfterEpochs(network, w, before);
    RoomAfter(g, w, w', used, STAMPS);
    var es := EpochExists(network, g, w');
    RunKeeps(network, g, w', es);
    AppendedEpoch(network, g, w, before, es);
    MoreAndMore(w, w', After(network, w', es), used, STAMPS);
    epochs := before + [es];
  }
}
