/** What apply_routes leaves behind, route by route and with time stamps (src/network/distance_vector.cpp). */
module AppliedRoutes {
  import opened Bytes
  import opened Sequences
  import opened Routing
  import opened DistanceVector

  /** The first route to d. */
  function HeldAt(routes: seq<Route>, d: NodeId): Option<Route> {
    var i := IndexOf(routes, d);
    if i < |routes| then Some(routes[i]) else None
  }

  /** The route to d after an advertisement of the neighbour's, in terms of the route before and the route advertised;
      room says that the table has a free slot afterwards. */
  ghost predicate Aftermath(network: IPv6, d: NodeId, held: Option<Route>, news: Option<Route>, after: Option<Route>,
                            room: bool, neighbor: NodeId, now: uint64, cost: uint32) {
    if d == neighbor then after == held
    else match news
      case None => after == if held.Some? && held.value.nextHop == neighbor then None else held
      case Some(a) =>
        var metric := cost + a.metric;
        if metric >= 16 then
          after == if held.Some? && held.value.nextHop == neighbor && held.value.metric != 16
                   then Some(held.value.(metric := 16, lastUpdate := now)) else held
        else
          var candidate := Route(VirtualAddress(network, d), d, neighbor, metric, now);
          match held
          case None => after == Some(candidate) || (after == None && !room)
          case Some(h) =>
            after == if || h.nextHop == neighbor || metric < h.metric
                        || (metric == h.metric && Value(neighbor) < Value(h.nextHop))
                     then Some(candidate) else held
  }

  lemma HeldIs(routes: seq<Route>, r: Route)
    requires UniqueNodes(routes) && r in routes
    ensures HeldAt(routes, r.destinationNode) == Some(r)
  {
    var i :| 0 <= i < |routes| && routes[i] == r;
    IndexOfIs(routes, r.destinationNode, i);
  }

  // ---------- erasing ----------

  lemma KeptAt(network: IPv6, routes: seq<Route>, neighbor: NodeId, advertised: seq<Route>, d: NodeId)
    requires Sound(network, routes) && WellFormed(network, advertised)
    ensures Sound(network, Kept(routes, neighbor, advertised))
    ensures var held := HeldAt(routes, d);
            HeldAt(Kept(routes, neighbor, advertised), d)
            == if held.Some? && held.value.nextHop == neighbor && d != neighbor && HeldAt(advertised, d).None?
               then None else held
  {
    var kept := Kept(routes, neighbor, advertised);
    KeptMembers(routes, neighbor, advertised);
    KeptUnique(routes, neighbor, advertised);
    forall r | r in routes && r.destinationNode == d
      ensures Withdrawn(r, neighbor, advertised)
              <==> r.nextHop == neighbor && d != neighbor && HeldAt(advertised, d).None?
    {
      WithdrawnIff(r, neighbor, advertised);
    }
    var held := HeldAt(routes, d);
    if held.Some? {
      assert routes[IndexOf(routes, d)] in routes;
      if held.value in kept {
        HeldIs(kept, held.value);
      }
    }
    if HeldAt(kept, d).Some? {
      assert kept[IndexOf(kept, d)] in kept;
      HeldIs(routes, HeldAt(kept, d).value);
    }
  }

  // ---------- one advertised route ----------

  lemma ReplacedAt(routes: seq<Route>, i: nat, r: Route, x: NodeId)
    requires UniqueNodes(routes) && i < |routes| && routes[i].destinationNode == r.destinationNode
    ensures HeldAt(routes[i := r], x) == if x == r.destinationNode then Some(r) else HeldAt(routes, x)
  {
    var k := IndexOf(routes, x);
    if x == r.destinationNode {
      IndexOfIs(routes, x, i);
    }
    IndexOfIs(routes[i := r], x, if x == r.destinationNode then i else k);
  }

  lemma AppendedAt(routes: seq<Route>, r: Route, x: NodeId)
    requires HeldAt(routes, r.destinationNode).None?
    ensures HeldAt(routes + [r], x) == if x == r.destinationNode then Some(r) else HeldAt(routes, x)
  {
    var k := IndexOf(routes, x);
    if k < |routes| {
      IndexOfIs(routes + [r], x, k);
    } else if x == r.destinationNode {
      IndexOfIs(routes + [r], x, |routes|);
    } else {
      IndexOfIs(routes + [r], x, |routes| + 1);
    }
  }

  /** What ApplyOne does to the list: nothing, a replacement at the first route to the same destination, or one route
      more at the end. */
  ghost predicate Edited(rs: seq<Route>, rs': seq<Route>, i: nat, r: Route)
    requires i <= |rs|
  {
    rs' == if i < |rs| then rs[i := r] else rs + [r]
  }

  lemma EditedAt(rs: seq<Route>, rs': seq<Route>, i: nat, r: Route, x: NodeId)
    requires UniqueNodes(rs) && i == IndexOf(rs, r.destinationNode) && Edited(rs, rs', i, r)
    ensures |rs'| >= |rs| && HeldAt(rs', x) == if x == r.destinationNode then Some(r) else HeldAt(rs, x)
  {
    if i < |rs| {
      ReplacedAt(rs, i, r, x);
    } else {
      AppendedAt(rs, r, x);
    }
  }

  /** The route that ApplyOne writes, if it writes one. */
  lemma OneWritten(network: IPv6, rs: seq<Route>, neighbor: NodeId, a: Route, now: uint64, cost: uint32)
      returns (written: Option<Route>)
    requires Sound(network, rs) && ValidRoute(network, a)
    ensures var rs', d := ApplyOne(rs, neighbor, a, now, cost).0, a.destinationNode;
            && (if written.Some? then written.value.destinationNode == d
               && Edited(rs, rs', IndexOf(rs, d), written.value)
                else rs' == rs)
            && Aftermath(network, d, HeldAt(rs, d), Some(a), if written.Some? then written else HeldAt(rs, d),
                         |rs'| < 16, neighbor, now, cost)
  {
    FindSameIsIndexOf(rs, a);
    var i, metric := FindSame(rs, a), LinkMetric(cost, a.metric);
    if i < |rs| {
      assert rs[i] in rs;
    }
    var candidate := Route(a.destination, a.destinationNode, neighbor, metric, now);
    if a.destinationNode == neighbor {
      return None;
    } else if metric >= 16 {
      return if i < |rs| && rs[i].nextHop == neighbor && rs[i].metric != 16
             then Some(rs[i].(metric := 16, lastUpdate := now)) else None;
    } else if i == |rs| {
      return if |rs| < 16 then Some(candidate) else None;
    } else {
      return if || rs[i].nextHop == neighbor || metric < rs[i].metric
                || (metric == rs[i].metric && Value(neighbor) < Value(rs[i].nextHop)) then Some(candidate) else None;
    }
  }

  lemma OneAftermath(network: IPv6, rs: seq<Route>, neighbor: NodeId, a: Route, now: uint64, cost: uint32, x: NodeId)
    requires Sound(network, rs) && ValidRoute(network, a)
    ensures var rs' := ApplyOne(rs, neighbor, a, now, cost).0;
            && |rs'| >= |rs|
            && if x != a.destinationNode then HeldAt(rs', x) == HeldAt(rs, x)
               else Aftermath(network, x, HeldAt(rs, x), Some(a), HeldAt(rs', x), |rs'| < 16, neighbor, now, cost)
  {
    var written := OneWritten(network, rs, neighbor, a, now, cost);
    if written.Some? {
      EditedAt(rs, ApplyOne(rs, neighbor, a, now, cost).0, IndexOf(rs, a.destinationNode), written.value, x);
    }
  }

  // ---------- all of them ----------

  /** What is not advertised, or not through the neighbour any more, is left alone. */
  ghost predicate Erased(d: NodeId, kept: Option<Route>, news: Option<Route>, neighbor: NodeId) {
    news.None? && d != neighbor && kept.Some? ==> kept.value.nextHop != neighbor
  }

  lemma {:induction false} EachAftermath(network: IPv6, kept: seq<Route>, neighbor: NodeId, advertised: seq<Route>,
                                         now: uint64, cost: uint32, d: NodeId)
    requires Sound(network, kept) && WellFormed(network, advertised)
    requires Erased(d, HeldAt(kept, d), HeldAt(advertised, d), neighbor)
    ensures var rs := ApplyEach(kept, neighbor, advertised, now, cost).0;
            && Sound(network, rs) && |rs| >= |kept|
            && Aftermath(network, d, HeldAt(kept, d), HeldAt(advertised, d), HeldAt(rs, d), |rs| < 16,
                         neighbor, now, cost)
    decreases |advertised|
  {
    if advertised != [] {
      var init, a := advertised[..|advertised| - 1], advertised[|advertised| - 1];
      Split(advertised);
      InitAt(network, init, a, d);
      var rs := ApplyEach(kept, neighbor, init, now, cost).0;
      if a.destinationNode == d {
        UntouchedAt(network, kept, neighbor, init, now, cost, d);
      } else {
        EachAftermath(network, kept, neighbor, init, now, cost, d);
      }
      OneAftermath(network, rs, neighbor, a, now, cost, d);
      ApplyOneView(network, rs, neighbor, a, now, cost);
    }
  }

  lemma InitAt(network: IPv6, init: seq<Route>, a: Route, d: NodeId)
    requires WellFormed(network, init + [a])
    ensures WellFormed(network, init) && ValidRoute(network, a) && HeldAt(init, a.destinationNode).None?
    ensures HeldAt(init + [a], d) == if d == a.destinationNode then Some(a) else HeldAt(init, d)
  {
    var all := init + [a];
    assert forall i | 0 <= i < |init| :: all[i] == init[i];
    assert all[|init|] == a && a in all;
    assert forall r | r in init :: r in all;
    AppendedAt(init, a, d);
  }

  /** A destination that is not advertised. */
  lemma {:induction false} UntouchedAt(network: IPv6, kept: seq<Route>, neighbor: NodeId, advertised: seq<Route>,
                                       now: uint64, cost: uint32, d: NodeId)
    requires Sound(network, kept) && WellFormed(network, advertised) && HeldAt(advertised, d).None?
    ensures var rs := ApplyEach(kept, neighbor, advertised, now, cost).0;
            Sound(network, rs) && |rs| >= |kept| && HeldAt(rs, d) == HeldAt(kept, d)
    decreases |advertised|
  {
    if advertised != [] {
      var init, a := advertised[..|advertised| - 1], advertised[|advertised| - 1];
      Split(advertised);
      InitAt(network, init, a, d);
      UntouchedAt(network, kept, neighbor, init, now, cost, d);
      var rs := ApplyEach(kept, neighbor, init, now, cost).0;
      OneAftermath(network, rs, neighbor, a, now, cost, d);
      ApplyOneView(network, rs, neighbor, a, now, cost);
    }
  }

  /** The whole of apply_routes: every destination's route afterwards, its time stamp included, from the route before
      and the route advertised. */
  lemma ApplyAftermath(network: IPv6, routes: seq<Route>, neighbor: NodeId, advertised: seq<Route>, now: uint64,
                       cost: uint32, d: NodeId)
    requires Sound(network, routes) && WellFormed(network, advertised)
    ensures var after := Apply(routes, neighbor, advertised, now, cost).0;
            Aftermath(network, d, HeldAt(routes, d), HeldAt(advertised, d), HeldAt(after, d), |after| < 16,
                      neighbor, now, cost)
  {
    KeptAt(network, routes, neighbor, advertised, d);
    EachAftermath(network, Kept(routes, neighbor, advertised), neighbor, advertised, now, cost, d);
  }
}
