/** The bounded route table (include/network/route.hpp, src/network/routing.cpp). */
module Routing {
  import opened Bytes

  const ROUTE_METRIC_INFINITY: uint32 := 16
  const MAX_ROUTE_TABLE_ENTRIES: nat := 16

  datatype Route = Route(destination: IPv6, destinationNode: NodeId, nextHop: NodeId, metric: uint32,
                         lastUpdate: uint64)

  /** What routing_lookup reports about a destination. */
  datatype RouteEntry = RouteEntry(destination: NodeId, nextHop: NodeId, metric: uint32, valid: bool)

  /** The part of a route that decides where packets go. */
  datatype Entry = Entry(metric: uint32, nextHop: NodeId)

  /** Identifiers decide when both are set, addresses otherwise. Not transitive when identifiers may be empty. */
  predicate SameDestination(left: Route, right: Route) {
    if left.destinationNode != EMPTY_NODE_ID && right.destinationNode != EMPTY_NODE_ID
    then left.destinationNode == right.destinationNode
    else left.destination == right.destination
  }

  /** Index of the first route to the same destination as r, or |routes|. */
  function FindSame(routes: seq<Route>, r: Route): (i: nat)
    ensures i <= |routes|
    ensures i < |routes| ==> SameDestination(routes[i], r)
    ensures forall j | 0 <= j < i :: !SameDestination(routes[j], r)
  {
    if routes == [] || SameDestination(routes[0], r) then 0 else 1 + FindSame(routes[1..], r)
  }

  /** Index of the first route whose destination node is d, or |routes|. */
  function IndexOf(routes: seq<Route>, d: NodeId): (i: nat)
    ensures i <= |routes|
    ensures i < |routes| ==> routes[i].destinationNode == d
    ensures forall j | 0 <= j < i :: routes[j].destinationNode != d
  {
    if routes == [] || routes[0].destinationNode == d then 0 else 1 + IndexOf(routes[1..], d)
  }

  /** The table as a partial map: metric and next hop of the first route to d. */
  function View(routes: seq<Route>, d: NodeId): Option<Entry> {
    var i := IndexOf(routes, d);
    if i < |routes| then Some(Entry(routes[i].metric, routes[i].nextHop)) else None
  }

  ghost predicate UniqueNodes(routes: seq<Route>) {
    forall i, j | 0 <= i < j < |routes| :: routes[i].destinationNode != routes[j].destinationNode
  }

  predicate ValidRoute(network: IPv6, r: Route) {
    r.destinationNode != EMPTY_NODE_ID && r.destination == VirtualAddress(network, r.destinationNode)
  }

  /** Set, pairwise different destination nodes, each with the address derived from it. */
  ghost predicate WellFormed(network: IPv6, routes: seq<Route>) {
    UniqueNodes(routes) && forall r | r in routes :: ValidRoute(network, r)
  }

  /** The view of after is the view of before, except that d maps to e. */
  ghost predicate UpdatedAt(before: seq<Route>, after: seq<Route>, d: NodeId, e: Option<Entry>) {
    View(after, d) == e && forall x: NodeId | x != d :: View(after, x) == View(before, x)
  }

  ghost function Nodes(routes: seq<Route>): set<NodeId> {
    set r | r in routes :: r.destinationNode
  }

  /** Strictly preferred: smaller metric, or equal metric and smaller next hop. */
  predicate Better(e: Entry, than: Entry) {
    e.metric < than.metric || (e.metric == than.metric && NodeLess(e.nextHop, than.nextHop))
  }

  function Preferred(held: Option<Entry>, e: Entry): Entry {
    if held.Some? && !Better(e, held.value) then held.value else e
  }

  /** routing_add_route on the route list. */
  function Added(routes: seq<Route>, r: Route): (seq<Route>, bool) {
    var i := FindSame(routes, r);
    if i < |routes| then
      if Better(Entry(r.metric, r.nextHop), Entry(routes[i].metric, routes[i].nextHop))
      then (routes[i := r], true)
      else (routes, false)
    else if |routes| >= MAX_ROUTE_TABLE_ENTRIES then (routes, false)
    else (routes + [r], true)
  }

  function RoutingLookup(routes: seq<Route>, d: NodeId): Option<RouteEntry> {
    match View(routes, d)
    case None => None
    case Some(e) => Some(RouteEntry(d, e.nextHop, e.metric, e.metric < ROUTE_METRIC_INFINITY))
  }

  /** Adding to a single route, whatever the two are: identifiers tell whether they lead to the same destination when
      both are set, addresses otherwise; then the smaller metric stays, and on a tie the smaller next hop. */
  lemma AddedToOne(held: Route, r: Route)
    ensures var bothSet := (exists i :: 0 <= i < 32 && held.destinationNode[i] != 0)
                           && exists i :: 0 <= i < 32 && r.destinationNode[i] != 0;
            var same := if bothSet
                        then held.destinationNode == r.destinationNode else held.destination == r.destination;
            var preferred := r.metric < held.metric
                             || (r.metric == held.metric && Value(r.nextHop) < Value(held.nextHop));
            Added([held], r)
            == if !same then ([held, r], true) else if preferred then ([r], true) else ([held], false)
  {
    EmptyIsZeros(held.destinationNode);
    EmptyIsZeros(r.destinationNode);
    assert FindSame([held], r) == if SameDestination(held, r) then 0 else 1;
    assert [held][0 := r] == [r] && [held] + [r] == [held, r];
  }

  class RouteTable {
    var routes: seq<Route>

    constructor ()
      ensures routes == []
    {
      routes := [];
    }

    method AddRoute(r: Route) returns (added: bool)
      modifies this
      ensures (routes, added) == Added(old(routes), r)
    {
      var i := 0;
      while i < |routes|
        invariant 0 <= i <= |routes| && routes == old(routes)
        invariant forall j | 0 <= j < i :: !SameDestination(routes[j], r)
      {
        if SameDestination(routes[i], r) {
          assert i == FindSame(routes, r);
          var better := r.metric < routes[i].metric;
          var equalButDeterministic := r.metric == routes[i].metric && NodeLess(r.nextHop, routes[i].nextHop);
          if better || equalButDeterministic {
            routes := routes[i := r];
            return true;
          }
          return false;
        }
        i := i + 1;
      }
      assert i == FindSame(routes, r);
      if |routes| >= MAX_ROUTE_TABLE_ENTRIES {
        return false;
      }
      routes := routes + [r];
      return true;
    }

    method Lookup(d: NodeId) returns (r: Option<RouteEntry>)
      ensures r == RoutingLookup(routes, d)
    {
      var i := 0;
      while i < |routes|
        invariant 0 <= i <= |routes|
        invariant forall j | 0 <= j < i :: routes[j].destinationNode != d
      {
        if routes[i].destinationNode == d {
          assert i == IndexOf(routes, d);
          return Some(RouteEntry(d, routes[i].nextHop, routes[i].metric, routes[i].metric < ROUTE_METRIC_INFINITY));
        }
        i := i + 1;
      }
      assert i == IndexOf(routes, d);
      return None;
    }
  }

  lemma IndexOfIs(routes: seq<Route>, d: NodeId, i: nat)
    requires i <= |routes|
    requires i < |routes| ==> routes[i].destinationNode == d
    requires forall j | 0 <= j < i :: routes[j].destinationNode != d
    ensures IndexOf(routes, d) == i
  {
    var k := IndexOf(routes, d);
    assert !(k < i) && !(i < k);
  }

  lemma FindSameIsIndexOf(routes: seq<Route>, r: Route)
    requires r.destinationNode != EMPTY_NODE_ID
    requires forall x | x in routes :: x.destinationNode != EMPTY_NODE_ID
    ensures FindSame(routes, r) == IndexOf(routes, r.destinationNode)
  {
    var i := FindSame(routes, r);
    forall x | x in routes ensures SameDestination(x, r) <==> x.destinationNode == r.destinationNode {}
    IndexOfIs(routes, r.destinationNode, i);
  }

  lemma ViewIffNode(routes: seq<Route>, d: NodeId)
    ensures View(routes, d).Some? <==> d in Nodes(routes)
  {
    var i := IndexOf(routes, d);
    if i < |routes| {
      assert routes[i] in routes;
    }
  }

  lemma ViewOfMember(routes: seq<Route>, r: Route)
    requires UniqueNodes(routes) && r in routes
    ensures View(routes, r.destinationNode) == Some(Entry(r.metric, r.nextHop))
  {
    var i :| 0 <= i < |routes| && routes[i] == r;
    IndexOfIs(routes, r.destinationNode, i);
  }

  /** Replacing a route by another to the same destination changes the view there and nowhere else. */
  lemma ViewAfterUpdate(routes: seq<Route>, i: nat, r: Route)
    requires UniqueNodes(routes) && i < |routes| && routes[i].destinationNode == r.destinationNode
    ensures UniqueNodes(routes[i := r])
    ensures UpdatedAt(routes, routes[i := r], r.destinationNode, Some(Entry(r.metric, r.nextHop)))
  {
    var after := routes[i := r];
    IndexOfIs(routes, r.destinationNode, i);
    IndexOfIs(after, r.destinationNode, i);
    forall d: NodeId | d != r.destinationNode ensures View(after, d) == View(routes, d) {
      IndexOfIs(after, d, IndexOf(routes, d));
    }
  }

  lemma ViewAfterAppend(routes: seq<Route>, r: Route)
    requires UniqueNodes(routes) && View(routes, r.destinationNode).None?
    ensures UniqueNodes(routes + [r])
    ensures UpdatedAt(routes, routes + [r], r.destinationNode, Some(Entry(r.metric, r.nextHop)))
  {
    assert IndexOf(routes, r.destinationNode) == |routes|;
    forall d: NodeId
      ensures d != r.destinationNode ==> View(routes + [r], d) == View(routes, d)
      ensures d == r.destinationNode ==> View(routes + [r], d) == Some(Entry(r.metric, r.nextHop))
    {
      if d == r.destinationNode || IndexOf(routes, d) < |routes| {
        IndexOfIs(routes + [r], d, IndexOf(routes, d));
      } else {
        IndexOfIs(routes + [r], d, |routes| + 1);
      }
    }
  }

  /** What a table must look like for the protocol: well-formed, metrics up to infinity. */
  ghost predicate Sound(network: IPv6, routes: seq<Route>) {
    WellFormed(network, routes) && forall r | r in routes :: r.metric <= ROUTE_METRIC_INFINITY
  }

  lemma SoundAfterUpdate(network: IPv6, routes: seq<Route>, i: nat, r: Route)
    requires Sound(network, routes) && ValidRoute(network, r) && r.metric <= ROUTE_METRIC_INFINITY
    requires i < |routes| && routes[i].destinationNode == r.destinationNode
    ensures Sound(network, routes[i := r])
    ensures UpdatedAt(routes, routes[i := r], r.destinationNode, Some(Entry(r.metric, r.nextHop)))
  {
    ViewAfterUpdate(routes, i, r);
    forall x | x in routes[i := r] ensures x in routes || x == r {}
  }

  lemma SoundAfterAppend(network: IPv6, routes: seq<Route>, r: Route)
    requires Sound(network, routes) && ValidRoute(network, r) && r.metric <= ROUTE_METRIC_INFINITY
    requires View(routes, r.destinationNode).None?
    ensures Sound(network, routes + [r])
    ensures UpdatedAt(routes, routes + [r], r.destinationNode, Some(Entry(r.metric, r.nextHop)))
  {
    ViewAfterAppend(routes, r);
  }

  /** A table with room keeps, for the added destination, the preferred of the two routes. */
  lemma AddRouteView(network: IPv6, routes: seq<Route>, r: Route)
    requires Sound(network, routes) && ValidRoute(network, r) && r.metric <= ROUTE_METRIC_INFINITY
    requires View(routes, r.destinationNode).Some? || |routes| < MAX_ROUTE_TABLE_ENTRIES
    ensures Sound(network, Added(routes, r).0)
    ensures UpdatedAt(routes, Added(routes, r).0, r.destinationNode,
                      Some(Preferred(View(routes, r.destinationNode), Entry(r.metric, r.nextHop))))
  {
    FindSameIsIndexOf(routes, r);
    var i := FindSame(routes, r);
    if i < |routes| {
      SoundAfterUpdate(network, routes, i, r);
    } else {
      SoundAfterAppend(network, routes, r);
    }
  }

  /** Different destination nodes drawn from a set cannot outnumber it. */
  lemma {:induction false} UniqueNodesBound(routes: seq<Route>, universe: set<NodeId>)
    requires UniqueNodes(routes) && Nodes(routes) <= universe
    ensures |routes| <= |universe|
  {
    if routes != [] {
      var rest, last := routes[..|routes| - 1], routes[|routes| - 1];
      assert last in routes;
      forall d | d in Nodes(rest) ensures d in universe - {last.destinationNode} {
        assert d in Nodes(routes);
      }
      UniqueNodesBound(rest, universe - {last.destinationNode});
    }
  }

  /** If a destination of the universe is missing from the table, the table has a free slot. */
  lemma RoomForMissing(routes: seq<Route>, universe: set<NodeId>, d: NodeId)
    requires UniqueNodes(routes) && Nodes(routes) <= universe && |universe| <= MAX_ROUTE_TABLE_ENTRIES
    requires d in universe && View(routes, d).None?
    ensures |routes| < MAX_ROUTE_TABLE_ENTRIES
  {
    ViewIffNode(routes, d);
    UniqueNodesBound(routes, universe - {d});
  }
}
