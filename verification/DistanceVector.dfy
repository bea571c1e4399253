/** Advertisements and how one neighbour's advertisement is folded into the table
    (src/network/route_advertisement.cpp, src/network/distance_vector.cpp). */
module DistanceVector {
  import opened Bytes
  import opened Sequences
  import opened Routing

  datatype Advertisement = Advertisement(sender: NodeId, generation: uint64, sequence: uint64, routes: seq<Route>)

  datatype SplitHorizonMode = Disabled | SplitHorizon | PoisonReverse

  // ---------- route_create_advertisement ----------

  function AdvertisedRoutes(routes: seq<Route>, target: Option<NodeId>, mode: SplitHorizonMode): seq<Route> {
    if routes == [] then []
    else
      var init, r := AdvertisedRoutes(routes[..|routes| - 1], target, mode), routes[|routes| - 1];
      if target.Some? && r.nextHop == target.value && mode == SplitHorizon then init
      else if target.Some? && r.nextHop == target.value && mode == PoisonReverse then
        init + [r.(metric := ROUTE_METRIC_INFINITY)]
      else init + [r]
  }

  method CreateAdvertisement(sender: NodeId, table: RouteTable, sequence: uint64, target: Option<NodeId>,
                             mode: SplitHorizonMode, generation: uint64) returns (adv: Advertisement)
    ensures adv == Advertisement(sender, generation, sequence, AdvertisedRoutes(table.routes, target, mode))
  {
    var filtered: seq<Route> := [];
    var i := 0;
    while i < |table.routes|
      invariant 0 <= i <= |table.routes|
      invariant filtered == AdvertisedRoutes(table.routes[..i], target, mode)
    {
      var r := table.routes[i];
      assert table.routes[..i + 1][..i] == table.routes[..i];
      i := i + 1;
      if target.Some? && r.nextHop == target.value {
        if mode == SplitHorizon {
          continue;
        }
        if mode == PoisonReverse {
          filtered := filtered + [r.(metric := ROUTE_METRIC_INFINITY)];
          continue;
        }
      }
      filtered := filtered + [r];
    }
    assert table.routes[..i] == table.routes;
    adv := Advertisement(sender, generation, sequence, filtered);
  }

  /** Split horizon leaves out exactly the routes through the target; without a target or a mode nothing is left out. */
  lemma {:induction false} OtherModes(routes: seq<Route>, target: NodeId, mode: SplitHorizonMode)
    ensures forall r :: r in AdvertisedRoutes(routes, Some(target), SplitHorizon) <==>
            r in routes && r.nextHop != target
    ensures AdvertisedRoutes(routes, None, mode) == routes && AdvertisedRoutes(routes, Some(target), Disabled) == routes
  {
    if routes != [] {
      OtherModes(routes[..|routes| - 1], target, mode);
      Split(routes);
    }
  }

  /** Poison reverse keeps every destination and hides, from its own next hop, that a route is usable. */
  lemma {:induction false} PoisonReverseView(network: IPv6, routes: seq<Route>, target: NodeId)
    requires WellFormed(network, routes)
    ensures var adv := AdvertisedRoutes(routes, Some(target), PoisonReverse);
            && WellFormed(network, adv)
            && |adv| == |routes|
            && forall i | 0 <= i < |routes| ::
                 adv[i] == if routes[i].nextHop == target
                           then routes[i].(metric := ROUTE_METRIC_INFINITY) else routes[i]
    ensures forall d: NodeId :: View(AdvertisedRoutes(routes, Some(target), PoisonReverse), d) ==
                                Poisoned(View(routes, d), target)
  {
    var adv := AdvertisedRoutes(routes, Some(target), PoisonReverse);
    PoisonReverseRoutes(routes, target);
    assert forall r | r in adv :: ValidRoute(network, r) by {
      forall i | 0 <= i < |adv| ensures ValidRoute(network, adv[i]) {
        assert routes[i] in routes;
      }
    }
    forall d: NodeId ensures View(adv, d) == Poisoned(View(routes, d), target) {
      IndexOfIs(adv, d, IndexOf(routes, d));
    }
  }

  function Poisoned(e: Option<Entry>, target: NodeId): Option<Entry> {
    if e.Some? && e.value.nextHop == target then Some(e.value.(metric := ROUTE_METRIC_INFINITY)) else e
  }

  lemma {:induction false} PoisonReverseRoutes(routes: seq<Route>, target: NodeId)
    ensures var adv := AdvertisedRoutes(routes, Some(target), PoisonReverse);
            && |adv| == |routes|
            && forall i | 0 <= i < |routes| ::
                 adv[i] == if routes[i].nextHop == target
                           then routes[i].(metric := ROUTE_METRIC_INFINITY) else routes[i]
  {
    if routes != [] {
      PoisonReverseRoutes(routes[..|routes| - 1], target);
    }
  }

  /** validate_route_advertisement: what a receiver demands before it looks at the routes. */
  predicate ValidAdvertisement(network: IPv6, adv: Advertisement) {
    && adv.sender != EMPTY_NODE_ID
    && |adv.routes| <= MAX_ROUTE_TABLE_ENTRIES
    && forall r | r in adv.routes :: ValidRoute(network, r) && r.metric <= ROUTE_METRIC_INFINITY
  }

  // ---------- apply_routes ----------

  /** A route through the neighbour that the neighbour no longer mentions. */
  predicate Withdrawn(r: Route, neighbor: NodeId, advertised: seq<Route>) {
    && r.nextHop == neighbor
    && r.destinationNode != neighbor
    && forall a | a in advertised :: !SameDestination(r, a)
  }

  function Kept(routes: seq<Route>, neighbor: NodeId, advertised: seq<Route>): seq<Route> {
    if routes == [] then []
    else
      var init, r := Kept(routes[..|routes| - 1], neighbor, advertised), routes[|routes| - 1];
      if Withdrawn(r, neighbor, advertised) then init else init + [r]
  }

  function LinkMetric(cost: uint32, advertised: uint32): uint32 {
    if cost + advertised < ROUTE_METRIC_INFINITY then cost + advertised else ROUTE_METRIC_INFINITY
  }

  /** The effect of one advertised route, and whether it counts as a change. */
  function ApplyOne(routes: seq<Route>, neighbor: NodeId, a: Route, now: uint64, cost: uint32): (seq<Route>, bool) {
    if a.destinationNode == neighbor then (routes, false)
    else
      var metric := LinkMetric(cost, a.metric);
      var i := FindSame(routes, a);
      if metric >= ROUTE_METRIC_INFINITY then
        if i < |routes| && routes[i].nextHop == neighbor && routes[i].metric != ROUTE_METRIC_INFINITY
        then (routes[i := routes[i].(metric := ROUTE_METRIC_INFINITY, lastUpdate := now)], true)
        else (routes, false)
      else
        var candidate := Route(a.destination, a.destinationNode, neighbor, metric, now);
        if i == |routes| then
          if |routes| < MAX_ROUTE_TABLE_ENTRIES then (routes + [candidate], true) else (routes, false)
        else if Better(Entry(metric, neighbor), Entry(routes[i].metric, routes[i].nextHop))
                || routes[i].nextHop == neighbor then
          if routes[i].(lastUpdate := now) != candidate then (routes[i := candidate], true)
          else if routes[i].nextHop == neighbor then (routes[i := routes[i].(lastUpdate := now)], false)
          else (routes, false)
        else (routes, false)
  }

  function ApplyEach(routes: seq<Route>, neighbor: NodeId, advertised: seq<Route>, now: uint64, cost: uint32)
    : (seq<Route>, bool)
  {
    if advertised == [] then (routes, false)
    else
      var (rs, changed) := ApplyEach(routes, neighbor, advertised[..|advertised| - 1], now, cost);
      var (rs', changed') := ApplyOne(rs, neighbor, advertised[|advertised| - 1], now, cost);
      (rs', changed || changed')
  }

  /** apply_routes on the route list. */
  function Apply(routes: seq<Route>, neighbor: NodeId, advertised: seq<Route>, now: uint64, cost: uint32)
    : (seq<Route>, bool)
  {
    var kept := Kept(routes, neighbor, advertised);
    var (rs, changed) := ApplyEach(kept, neighbor, advertised, now, cost);
    (rs, |kept| != |routes| || changed)
  }

  method EraseWithdrawn(table: RouteTable, neighbor: NodeId, advertised: seq<Route>)
    modifies table
    ensures table.routes == Kept(old(table.routes), neighbor, advertised)
  {
    var routes := table.routes;
    var kept: seq<Route> := [];
    var i := 0;
    while i < |routes|
      invariant 0 <= i <= |routes|
      invariant kept == Kept(routes[..i], neighbor, advertised)
    {
      assert routes[..i + 1][..i] == routes[..i];
      if !Withdrawn(routes[i], neighbor, advertised) {
        kept := kept + [routes[i]];
      }
      i := i + 1;
    }
    assert routes[..i] == routes;
    table.routes := kept;
  }

  method FindExisting(table: RouteTable, a: Route) returns (i: nat)
    ensures i == FindSame(table.routes, a)
  {
    i := 0;
    while i < |table.routes|
      invariant 0 <= i <= |table.routes|
      invariant forall j | 0 <= j < i :: !SameDestination(table.routes[j], a)
    {
      if SameDestination(table.routes[i], a) {
        assert i == FindSame(table.routes, a);
        return;
      }
      i := i + 1;
    }
    assert i == FindSame(table.routes, a);
  }

  /** The body of the loop in apply_routes. */
  method ApplyAdvertised(table: RouteTable, neighbor: NodeId, a: Route, now: uint64, cost: uint32)
    returns (changed: bool)
    modifies table
    ensures (table.routes, changed) == ApplyOne(old(table.routes), neighbor, a, now, cost)
  {
    if a.destinationNode == neighbor {
      return false;
    }
    var candidateMetric := cost + a.metric;
    var metric: uint32 := if candidateMetric < ROUTE_METRIC_INFINITY then candidateMetric else ROUTE_METRIC_INFINITY;
    var i := FindExisting(table, a);
    if metric >= ROUTE_METRIC_INFINITY {
      if i < |table.routes| && table.routes[i].nextHop == neighbor && table.routes[i].metric != ROUTE_METRIC_INFINITY {
        table.routes := table.routes[i := table.routes[i].(metric := ROUTE_METRIC_INFINITY, lastUpdate := now)];
        return true;
      }
      return false;
    }
    var candidate := Route(a.destination, a.destinationNode, neighbor, metric, now);
    if i == |table.routes| {
      if |table.routes| < MAX_ROUTE_TABLE_ENTRIES {
        table.routes := table.routes + [candidate];
        return true;
      }
      return false;
    }
    var existing := table.routes[i];
    var betterMetric := metric < existing.metric;
    var deterministicTie := metric == existing.metric && NodeLess(neighbor, existing.nextHop);
    var refreshSameNeighbor := existing.nextHop == neighbor;
    if betterMetric || deterministicTie || refreshSameNeighbor {
      var routeChanged := || existing.destination != candidate.destination
                          || existing.destinationNode != candidate.destinationNode
                          || existing.nextHop != candidate.nextHop
                          || existing.metric != candidate.metric;
      if routeChanged {
        table.routes := table.routes[i := candidate];
        return true;
      } else if refreshSameNeighbor {
        table.routes := table.routes[i := existing.(lastUpdate := now)];
      }
    }
    return false;
  }

  /** The table and the change flag after the first k advertised routes. */
  ghost predicate AppliedUpTo(rs: seq<Route>, changed: bool, kept: seq<Route>, shrunk: bool, neighbor: NodeId,
                              advertised: seq<Route>, k: nat, now: uint64, cost: uint32)
    requires k <= |advertised|
  {
    var applied := ApplyEach(kept, neighbor, advertised[..k], now, cost);
    rs == applied.0 && changed == (shrunk || applied.1)
  }

  lemma AppliesOneMore(rs: seq<Route>, changed: bool, kept: seq<Route>, shrunk: bool, neighbor: NodeId,
                       advertised: seq<Route>, k: nat, now: uint64, cost: uint32, rs': seq<Route>, changed': bool)
    requires k < |advertised| && AppliedUpTo(rs, changed, kept, shrunk, neighbor, advertised, k, now, cost)
    requires (rs', changed') == ApplyOne(rs, neighbor, advertised[k], now, cost)
    ensures AppliedUpTo(rs', changed || changed', kept, shrunk, neighbor, advertised, k + 1, now, cost)
  {
    OneFurther(advertised, k);
    Appended(advertised[..k], advertised[k]);
  }

  lemma AppliedAll(rs: seq<Route>, changed: bool, kept: seq<Route>, shrunk: bool, neighbor: NodeId,
                   advertised: seq<Route>, k: nat, now: uint64, cost: uint32)
    requires k == |advertised| && AppliedUpTo(rs, changed, kept, shrunk, neighbor, advertised, k, now, cost)
    ensures var (rs', changed') := ApplyEach(kept, neighbor, advertised, now, cost);
            rs == rs' && changed == (shrunk || changed')
  {
    assert advertised[..k] == advertised;
  }

  /** apply_routes: erases, then overwrites or appends in place, and reports whether anything changed. */
  method ApplyRoutes(table: RouteTable, neighbor: NodeId, adv: Advertisement, now: uint64, cost: uint32)
    returns (changed: bool)
    modifies table
    ensures (table.routes, changed) == Apply(old(table.routes), neighbor, adv.routes, now, cost)
  {
    var oldSize := |table.routes|;
    EraseWithdrawn(table, neighbor, adv.routes);
    ghost var kept := table.routes;
    changed := |table.routes| != oldSize;
    ghost var shrunk := changed;
    var k := 0;
    while k < |adv.routes|
      invariant 0 <= k <= |adv.routes|
      invariant AppliedUpTo(table.routes, changed, kept, shrunk, neighbor, adv.routes, k, now, cost)
    {
      ghost var before := table.routes;
      var c := ApplyAdvertised(table, neighbor, adv.routes[k], now, cost);
      AppliesOneMore(before, changed, kept, shrunk, neighbor, adv.routes, k, now, cost, table.routes, c);
      changed := changed || c;
      k := k + 1;
    }
    AppliedAll(table.routes, changed, kept, shrunk, neighbor, adv.routes, k, now, cost);
  }

  // ---------- what applying an advertisement means for one destination ----------

  /** The rule for one destination d other than the neighbour, given what the table holds and what is advertised. */
  function PointUpdate(held: Option<Entry>, advertised: Option<Entry>, neighbor: NodeId, d: NodeId, cost: uint32)
    : Option<Entry>
  {
    if d == neighbor then held
    else if advertised.None? then
      if held.Some? && held.value.nextHop == neighbor then None else held
    else
      var metric := LinkMetric(cost, advertised.value.metric);
      if metric == ROUTE_METRIC_INFINITY then
        if held.Some? && held.value.nextHop == neighbor then Some(Entry(metric, neighbor)) else held
      else if held.Some? && held.value.nextHop == neighbor then Some(Entry(metric, neighbor))
      else Some(Preferred(held, Entry(metric, neighbor)))
  }

  /** An advertised route finds no slot: unknown destination, usable metric, full table. */
  predicate Dropped(routes: seq<Route>, neighbor: NodeId, a: Route, cost: uint32) {
    && a.destinationNode != neighbor
    && LinkMetric(cost, a.metric) < ROUTE_METRIC_INFINITY
    && View(routes, a.destinationNode).None?
    && |routes| >= MAX_ROUTE_TABLE_ENTRIES
  }

  lemma ApplyOneView(network: IPv6, routes: seq<Route>, neighbor: NodeId, a: Route, now: uint64, cost: uint32)
    requires Sound(network, routes) && ValidRoute(network, a)
    ensures var (rs, changed) := ApplyOne(routes, neighbor, a, now, cost);
            var d := a.destinationNode;
            var held := View(routes, d);
            var updated := PointUpdate(held, Some(Entry(a.metric, a.nextHop)), neighbor, d, cost);
            && Sound(network, rs)
            && if Dropped(routes, neighbor, a, cost)
               then rs == routes && !changed
               else UpdatedAt(routes, rs, d, updated) && (changed <==> updated != held)
  {
    FindSameIsIndexOf(routes, a);
    var i := FindSame(routes, a);
    var metric := LinkMetric(cost, a.metric);
    if a.destinationNode == neighbor {
    } else if i == |routes| {
      if metric < ROUTE_METRIC_INFINITY && |routes| < MAX_ROUTE_TABLE_ENTRIES {
        SoundAfterAppend(network, routes, Route(a.destination, a.destinationNode, neighbor, metric, now));
      }
    } else {
      var existing := routes[i];
      assert existing in routes;
      if metric == ROUTE_METRIC_INFINITY {
        SoundAfterUpdate(network, routes, i, existing.(metric := ROUTE_METRIC_INFINITY, lastUpdate := now));
      } else {
        SoundAfterUpdate(network, routes, i, Route(a.destination, a.destinationNode, neighbor, metric, now));
        SoundAfterUpdate(network, routes, i, existing.(lastUpdate := now));
      }
    }
  }

  lemma {:induction false} KeptMembers(routes: seq<Route>, neighbor: NodeId, advertised: seq<Route>)
    ensures forall r :: r in Kept(routes, neighbor, advertised) <==> r in routes && !Withdrawn(r, neighbor, advertised)
    ensures |Kept(routes, neighbor, advertised)| <= |routes|
  {
    if routes != [] {
      var init, last := routes[..|routes| - 1], routes[|routes| - 1];
      KeptMembers(init, neighbor, advertised);
      assert routes == init + [last];
      var kept, kept' := Kept(routes, neighbor, advertised), Kept(init, neighbor, advertised);
      assert kept == if Withdrawn(last, neighbor, advertised) then kept' else kept' + [last];
      forall r ensures r in kept <==> r in routes && !Withdrawn(r, neighbor, advertised) {
        assert r in routes <==> r in init || r == last;
        assert r in kept <==> r in kept' || (r == last && !Withdrawn(last, neighbor, advertised));
      }
    }
  }

  lemma {:induction false} KeptUnique(routes: seq<Route>, neighbor: NodeId, advertised: seq<Route>)
    requires UniqueNodes(routes)
    ensures UniqueNodes(Kept(routes, neighbor, advertised))
    ensures |Kept(routes, neighbor, advertised)| == |routes| ==> Kept(routes, neighbor, advertised) == routes
  {
    if routes != [] {
      var init, last := routes[..|routes| - 1], routes[|routes| - 1];
      assert routes == init + [last];
      KeptUnique(init, neighbor, advertised);
      KeptMembers(init, neighbor, advertised);
      var kept' := Kept(init, neighbor, advertised);
      forall i | 0 <= i < |kept'| ensures kept'[i].destinationNode != last.destinationNode {
        assert kept'[i] in init;
      }
    }
  }

  /** Erasing withdrawn routes is PointUpdate with nothing advertised; the table shrinks exactly if that matters
      somewhere. */
  lemma KeptView(network: IPv6, routes: seq<Route>, neighbor: NodeId, advertised: seq<Route>)
    requires WellFormed(network, routes) && forall a | a in advertised :: a.destinationNode != EMPTY_NODE_ID
    ensures WellFormed(network, Kept(routes, neighbor, advertised))
    ensures forall r | r in Kept(routes, neighbor, advertised) :: r in routes
    ensures forall d: NodeId :: View(Kept(routes, neighbor, advertised), d)
                                == AfterErase(View(routes, d), View(advertised, d), neighbor, d)
    ensures |Kept(routes, neighbor, advertised)| == |routes| <==>
      forall d: NodeId :: AfterErase(View(routes, d), View(advertised, d), neighbor, d) == View(routes, d)
    ensures |Kept(routes, neighbor, advertised)| == |routes| ==> Kept(routes, neighbor, advertised) == routes
  {
    var kept := Kept(routes, neighbor, advertised);
    KeptMembers(routes, neighbor, advertised);
    KeptUnique(routes, neighbor, advertised);
    forall d: NodeId ensures View(kept, d) == AfterErase(View(routes, d), View(advertised, d), neighbor, d) {
      ViewIffNode(routes, d);
      ViewIffNode(kept, d);
      if r :| r in routes && r.destinationNode == d {
        ViewOfMember(routes, r);
        WithdrawnIff(r, neighbor, advertised);
        if r in kept {
          ViewOfMember(kept, r);
        }
      }
    }
    if kept != routes {
      KeptLoses(routes, neighbor, advertised);
      var r :| r in routes && Withdrawn(r, neighbor, advertised);
      WithdrawnIff(r, neighbor, advertised);
      ViewOfMember(routes, r);
      assert AfterErase(View(routes, r.destinationNode), View(advertised, r.destinationNode), neighbor,
                        r.destinationNode)
          != View(routes, r.destinationNode);
    }
  }

  /** What is left at d after the erase step. */
  function AfterErase(held: Option<Entry>, advertised: Option<Entry>, neighbor: NodeId, d: NodeId): Option<Entry> {
    if advertised.None? then PointUpdate(held, None, neighbor, d, 0) else held
  }

  lemma {:induction false} KeptLoses(routes: seq<Route>, neighbor: NodeId, advertised: seq<Route>)
    requires Kept(routes, neighbor, advertised) != routes
    ensures exists r :: r in routes && Withdrawn(r, neighbor, advertised)
  {
    var init, r := routes[..|routes| - 1], routes[|routes| - 1];
    assert routes == init + [r];
    if !Withdrawn(r, neighbor, advertised) {
      KeptLoses(init, neighbor, advertised);
    }
  }

  lemma WithdrawnIff(r: Route, neighbor: NodeId, advertised: seq<Route>)
    requires r.destinationNode != EMPTY_NODE_ID && forall a | a in advertised :: a.destinationNode != EMPTY_NODE_ID
    ensures Withdrawn(r, neighbor, advertised) <==>
      r.nextHop == neighbor && r.destinationNode != neighbor && View(advertised, r.destinationNode).None?
  {
    var k := IndexOf(advertised, r.destinationNode);
    if k < |advertised| {
      assert advertised[k] in advertised && SameDestination(r, advertised[k]);
    }
  }

  /** The universe of destinations a fold can reach fits the table, so no route is dropped. */
  ghost predicate Fits(routes: seq<Route>, neighbor: NodeId, advertised: seq<Route>, cost: uint32,
                       universe: set<NodeId>) {
    && |universe| <= MAX_ROUTE_TABLE_ENTRIES
    && Nodes(routes) <= universe
    && forall a | a in advertised && a.destinationNode != neighbor
       && LinkMetric(cost, a.metric) < ROUTE_METRIC_INFINITY ::
         a.destinationNode in universe
  }

  /** After every advertised route has been looked at, each destination has been through the update rule once. */
  function AfterEach(held: Option<Entry>, advertised: Option<Entry>, neighbor: NodeId, d: NodeId,
                     cost: uint32): Option<Entry> {
    if advertised.Some? then PointUpdate(held, advertised, neighbor, d, cost) else held
  }

  /** The table rs is what the routes become, destination by destination. */
  ghost predicate EachApplied(network: IPv6, routes: seq<Route>, neighbor: NodeId, advertised: seq<Route>,
                              rs: seq<Route>, cost: uint32, universe: set<NodeId>) {
    && Sound(network, rs) && Nodes(rs) <= universe
    && forall d: NodeId :: View(rs, d) == AfterEach(View(routes, d), View(advertised, d), neighbor, d, cost)
  }

  lemma OneMoreApplied(network: IPv6, routes: seq<Route>, neighbor: NodeId, init: seq<Route>, a: Route,
                       rs: seq<Route>, now: uint64, cost: uint32, universe: set<NodeId>)
    requires Sound(network, routes) && WellFormed(network, init + [a]) && WellFormed(network, init)
    requires Fits(routes, neighbor, init + [a], cost, universe)
    requires EachApplied(network, routes, neighbor, init, rs, cost, universe)
    ensures EachApplied(network, routes, neighbor, init + [a], ApplyOne(rs, neighbor, a, now, cost).0, cost, universe)
  {
    assert a in init + [a];
    NotInInit(init, a);
    ViewAfterAppend(init, a);
    AppliedWithin(network, rs, neighbor, a, now, cost, universe);
  }

  /** One advertised route, when there is room for whatever it may add. */
  lemma AppliedWithin(network: IPv6, rs: seq<Route>, neighbor: NodeId, a: Route, now: uint64, cost: uint32,
                      universe: set<NodeId>)
    requires Sound(network, rs) && ValidRoute(network, a)
    requires Nodes(rs) <= universe && |universe| <= MAX_ROUTE_TABLE_ENTRIES
    requires a.destinationNode != neighbor && LinkMetric(cost, a.metric) < ROUTE_METRIC_INFINITY ==>
               a.destinationNode in universe
    ensures var rs', d := ApplyOne(rs, neighbor, a, now, cost).0, a.destinationNode;
            && Sound(network, rs') && Nodes(rs') <= universe
            && UpdatedAt(rs, rs', d, PointUpdate(View(rs, d), Some(Entry(a.metric, a.nextHop)), neighbor, d, cost))
  {
    var rs' := ApplyOne(rs, neighbor, a, now, cost).0;
    ApplyOneView(network, rs, neighbor, a, now, cost);
    if Dropped(rs, neighbor, a, cost) {
      RoomForMissing(rs, universe, a.destinationNode);
    }
    StillWithin(rs, rs', a.destinationNode, universe);
  }

  lemma NoneApplied(network: IPv6, routes: seq<Route>, neighbor: NodeId, cost: uint32, universe: set<NodeId>)
    requires Sound(network, routes) && Nodes(routes) <= universe
    ensures EachApplied(network, routes, neighbor, [], routes, cost, universe)
  {
    forall d: NodeId ensures View([], d).None? {}
  }

  lemma FitsInit(network: IPv6, routes: seq<Route>, neighbor: NodeId, init: seq<Route>, a: Route, cost: uint32,
                 universe: set<NodeId>)
    requires WellFormed(network, init + [a]) && Fits(routes, neighbor, init + [a], cost, universe)
    ensures WellFormed(network, init) && Fits(routes, neighbor, init, cost, universe)
  {
    assert forall i | 0 <= i < |init| :: (init + [a])[i] == init[i];
    assert forall r | r in init :: r in init + [a];
  }

  lemma {:induction false} ApplyEachView(network: IPv6, routes: seq<Route>, neighbor: NodeId, advertised: seq<Route>,
                                         now: uint64, cost: uint32, universe: set<NodeId>)
    requires Sound(network, routes) && WellFormed(network, advertised)
    requires Fits(routes, neighbor, advertised, cost, universe)
    ensures EachApplied(network, routes, neighbor, advertised,
                        ApplyEach(routes, neighbor, advertised, now, cost).0, cost, universe)
  {
    if advertised == [] {
      NoneApplied(network, routes, neighbor, cost, universe);
    } else {
      var init, a := advertised[..|advertised| - 1], advertised[|advertised| - 1];
      Split(advertised);
      FitsInit(network, routes, neighbor, init, a, cost, universe);
      ApplyEachView(network, routes, neighbor, init, now, cost, universe);
      OneMoreApplied(network, routes, neighbor, init, a, ApplyEach(routes, neighbor, init, now, cost).0,
                     now, cost, universe);
    }
  }

  lemma StillWithin(before: seq<Route>, after: seq<Route>, d: NodeId, universe: set<NodeId>)
    requires Nodes(before) <= universe && (View(after, d).Some? ==> View(before, d).Some? || d in universe)
    requires forall x: NodeId | x != d :: View(after, x) == View(before, x)
    ensures Nodes(after) <= universe
  {
    forall x | x in Nodes(after) ensures x in universe {
      ViewIffNode(after, x);
      ViewIffNode(before, x);
    }
  }

  lemma NotInInit(init: seq<Route>, r: Route)
    requires UniqueNodes(init + [r])
    ensures View(init, r.destinationNode).None?
  {
    var all := init + [r];
    forall i | 0 <= i < |init| ensures init[i].destinationNode != r.destinationNode {
      assert all[i] == init[i] && all[|init|] == r;
    }
    IndexOfIs(init, r.destinationNode, |init|);
  }

  /** apply_routes, destination by destination: the whole table goes through PointUpdate. */
  lemma ApplyView(network: IPv6, routes: seq<Route>, neighbor: NodeId, advertised: seq<Route>,
                  now: uint64, cost: uint32, universe: set<NodeId>)
    requires Sound(network, routes) && WellFormed(network, advertised)
    requires Fits(routes, neighbor, advertised, cost, universe)
    ensures var rs := Apply(routes, neighbor, advertised, now, cost).0;
            Sound(network, rs) && Nodes(rs) <= universe
    ensures forall d: NodeId :: View(Apply(routes, neighbor, advertised, now, cost).0, d)
                                == PointUpdate(View(routes, d), View(advertised, d), neighbor, d, cost)
  {
    var kept := Kept(routes, neighbor, advertised);
    KeptView(network, routes, neighbor, advertised);
    ApplyEachView(network, kept, neighbor, advertised, now, cost, universe);
  }

  lemma {:induction false} ApplyKeepsSound(network: IPv6, routes: seq<Route>, neighbor: NodeId, advertised: seq<Route>,
                                           now: uint64, cost: uint32)
    requires Sound(network, routes) && |routes| <= MAX_ROUTE_TABLE_ENTRIES
    requires forall a | a in advertised :: ValidRoute(network, a)
    ensures var rs := Apply(routes, neighbor, advertised, now, cost).0;
            Sound(network, rs) && |rs| <= MAX_ROUTE_TABLE_ENTRIES
  {
    KeptView(network, routes, neighbor, advertised);
    KeptMembers(routes, neighbor, advertised);
    ApplyEachKeepsSound(network, Kept(routes, neighbor, advertised), neighbor, advertised, now, cost);
  }

  lemma {:induction false} ApplyEachKeepsSound(network: IPv6, routes: seq<Route>, neighbor: NodeId,
                                               advertised: seq<Route>, now: uint64, cost: uint32)
    requires Sound(network, routes) && |routes| <= MAX_ROUTE_TABLE_ENTRIES
    requires forall a | a in advertised :: ValidRoute(network, a)
    ensures var rs := ApplyEach(routes, neighbor, advertised, now, cost).0;
            Sound(network, rs) && |rs| <= MAX_ROUTE_TABLE_ENTRIES
  {
    if advertised != [] {
      var init, a := advertised[..|advertised| - 1], advertised[|advertised| - 1];
      assert a in advertised;
      ApplyEachKeepsSound(network, routes, neighbor, init, now, cost);
      ApplyOneView(network, ApplyEach(routes, neighbor, init, now, cost).0, neighbor, a, now, cost);
    }
  }

  // ---------- when does apply_routes report a change ----------

  predicate SameRoute(a: Route, b: Route) {
    a.(lastUpdate := 0) == b.(lastUpdate := 0)
  }

  ghost predicate SameIgnoringTime(a: seq<Route>, b: seq<Route>) {
    |a| == |b| && forall i | 0 <= i < |a| :: SameRoute(a[i], b[i])
  }

  lemma FindSameIgnoresTime(routes: seq<Route>, other: seq<Route>, a: Route)
    requires SameIgnoringTime(routes, other)
    ensures FindSame(routes, a) == FindSame(other, a)
  {
    var i, k := FindSame(routes, a), FindSame(other, a);
    assert forall j | 0 <= j < |routes| :: SameDestination(routes[j], a) <==> SameDestination(other[j], a);
    assert !(i < k) && !(k < i);
  }

  lemma ApplyOneQuiet(routes: seq<Route>, other: seq<Route>, neighbor: NodeId, a: Route, now: uint64, cost: uint32)
    requires SameIgnoringTime(routes, other)
    ensures ApplyOne(routes, neighbor, a, now, cost).1 == ApplyOne(other, neighbor, a, now, cost).1
    ensures !ApplyOne(other, neighbor, a, now, cost).1 ==>
              SameIgnoringTime(routes, ApplyOne(other, neighbor, a, now, cost).0)
  {
    FindSameIgnoresTime(routes, other, a);
    var i := FindSame(routes, a);
    if i < |routes| {
      assert SameRoute(routes[i], other[i]);
    }
  }

  /** No step changed anything exactly if no step would have changed the original table. No well-formedness needed. */
  lemma {:induction false} ApplyEachQuiet(routes: seq<Route>, neighbor: NodeId, advertised: seq<Route>, now: uint64,
                                          cost: uint32)
    ensures ApplyEach(routes, neighbor, advertised, now, cost).1 <==>
            exists a :: a in advertised && ApplyOne(routes, neighbor, a, now, cost).1
    ensures !ApplyEach(routes, neighbor, advertised, now, cost).1 ==>
            SameIgnoringTime(routes, ApplyEach(routes, neighbor, advertised, now, cost).0)
  {
    if advertised != [] {
      var init, last := advertised[..|advertised| - 1], advertised[|advertised| - 1];
      assert advertised == init + [last];
      ApplyEachQuiet(routes, neighbor, init, now, cost);
      var (rs, changed) := ApplyEach(routes, neighbor, init, now, cost);
      if !changed {
        ApplyOneQuiet(routes, rs, neighbor, last, now, cost);
        assert forall a | a in advertised :: a in init || a == last;
      } else {
        var a :| a in init && ApplyOne(routes, neighbor, a, now, cost).1;
        assert a in advertised;
      }
    }
  }

  /** The destination is not squeezed out by a full table, and its route is to become another one. */
  ghost predicate Updates(routes: seq<Route>, neighbor: NodeId, advertised: seq<Route>, cost: uint32, d: NodeId) {
    && PointUpdate(View(routes, d), View(advertised, d), neighbor, d, cost) != View(routes, d)
    && (View(routes, d).Some? || |routes| < MAX_ROUTE_TABLE_ENTRIES)
  }

  lemma ChangeShows(network: IPv6, routes: seq<Route>, neighbor: NodeId, advertised: seq<Route>, a: Route, now: uint64,
                    cost: uint32)
    requires Sound(network, routes) && WellFormed(network, advertised)
    requires a in advertised && ApplyOne(routes, neighbor, a, now, cost).1
    ensures Updates(routes, neighbor, advertised, cost, a.destinationNode)
  {
    ApplyOneView(network, routes, neighbor, a, now, cost);
    ViewOfMember(advertised, a);
  }

  lemma UpdateChanges(network: IPv6, routes: seq<Route>, neighbor: NodeId, advertised: seq<Route>, now: uint64,
                      cost: uint32, d: NodeId)
    requires Sound(network, routes) && WellFormed(network, advertised) && Updates(routes, neighbor, advertised, cost, d)
    requires AfterErase(View(routes, d), View(advertised, d), neighbor, d) == View(routes, d)
    ensures exists a :: a in advertised && ApplyOne(routes, neighbor, a, now, cost).1
  {
    var a := advertised[IndexOf(advertised, d)];
    assert a in advertised;
    ApplyOneView(network, routes, neighbor, a, now, cost);
  }

  /** apply_routes reports a change exactly if some destination that is not squeezed out by a full table is updated. */
  lemma ChangedIff(network: IPv6, routes: seq<Route>, neighbor: NodeId, advertised: seq<Route>, now: uint64,
                   cost: uint32)
    requires Sound(network, routes) && WellFormed(network, advertised)
    ensures Apply(routes, neighbor, advertised, now, cost).1 <==>
      exists d: NodeId :: Updates(routes, neighbor, advertised, cost, d)
  {
    var kept := Kept(routes, neighbor, advertised);
    var changed := Apply(routes, neighbor, advertised, now, cost).1;
    KeptView(network, routes, neighbor, advertised);
    ApplyEachQuiet(kept, neighbor, advertised, now, cost);
    if |kept| != |routes| {
      var d: NodeId :| AfterErase(View(routes, d), View(advertised, d), neighbor, d) != View(routes, d);
      assert Updates(routes, neighbor, advertised, cost, d);
    } else {
      if changed {
        var a :| a in advertised && ApplyOne(routes, neighbor, a, now, cost).1;
        ChangeShows(network, routes, neighbor, advertised, a, now, cost);
      }
      if d: NodeId :| Updates(routes, neighbor, advertised, cost, d) {
        UpdateChanges(network, routes, neighbor, advertised, now, cost, d);
      }
    }
  }

  // ---------- distance_vector_update: the version guard ----------

  datatype Version = Version(generation: uint64, sequence: uint64)

  type Origins = map<NodeId, Version>

  predicate Newer(v: Version, than: Version) {
    v.generation > than.generation || (v.generation == than.generation && v.sequence > than.sequence)
  }

  function VersionOf(adv: Advertisement): Version {
    Version(adv.generation, adv.sequence)
  }

  predicate Accepts(origins: Origins, neighbor: NodeId, adv: Advertisement) {
    adv.sender == neighbor && (adv.sender in origins ==> Newer(VersionOf(adv), origins[adv.sender]))
  }

  class OriginStates {
    var versions: Origins

    constructor ()
      ensures versions == map[]
    {
      versions := map[];
    }
  }

  /** distance_vector_update with origin states; a null argument skips the guard. */
  method DistanceVectorUpdate(table: RouteTable, neighbor: NodeId, adv: Advertisement, now: uint64, cost: uint32,
                              origins: OriginStates?) returns (accepted: bool, changed: bool)
    modifies table, if origins == null then {} else {origins}
    ensures accepted <==> if origins == null
                          then adv.sender == neighbor else Accepts(old(origins.versions), neighbor, adv)
    ensures origins != null ==>
      origins.versions == if accepted then old(origins.versions)[neighbor := VersionOf(adv)] else old(origins.versions)
    ensures (table.routes, changed) ==
      if accepted then Apply(old(table.routes), neighbor, adv.routes, now, cost) else (old(table.routes), false)
  {
    changed := false;
    if adv.sender != neighbor {
      return false, false;
    }
    if origins != null {
      if adv.sender in origins.versions {
        var last := origins.versions[adv.sender];
        if adv.generation < last.generation || (adv.generation == last.generation && adv.sequence <= last.sequence) {
          return false, false;
        }
      }
      origins.versions := origins.versions[adv.sender := Version(adv.generation, adv.sequence)];
    }
    changed := ApplyRoutes(table, neighbor, adv, now, cost);
    return true, changed;
  }
}
