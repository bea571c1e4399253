/** The reference the routing theorems are measured against: hop distance in a static symmetric graph of at most 16
    nodes. */
module Graph {
  import opened Bytes
  import opened Routing
  import opened Rebuild

  datatype Graph = Graph(nodes: set<NodeId>, links: map<NodeId, set<NodeId>>)

  function Links(g: Graph, u: NodeId): set<NodeId> {
    if u in g.links then g.links[u] else {}
  }

  ghost predicate ValidGraph(g: Graph) {
    && |g.nodes| <= MAX_ROUTE_TABLE_ENTRIES
    && EMPTY_NODE_ID !in g.nodes
    && g.links.Keys == g.nodes
    && (forall u {:trigger Links(g, u)} | u in g.nodes :: Links(g, u) <= g.nodes && u !in Links(g, u))
    && forall u, v {:trigger v in Links(g, u)} | u in g.nodes && v in Links(g, u) :: u in Links(g, v)
  }

  ghost predicate IsPath(g: Graph, p: seq<NodeId>, u: NodeId, d: NodeId) {
    && p != [] && p[0] == u && p[|p| - 1] == d
    && (forall x | x in p :: x in g.nodes)
    && forall i | 0 <= i < |p| - 1 :: p[i + 1] in Links(g, p[i])
  }

  /** Adds the nodes that have a neighbour in s. */
  ghost function Widened(g: Graph, s: set<NodeId>): set<NodeId>
  {
    s + set u | u in g.nodes && exists n :: n in Links(g, u) && n in s
  }

  /** Nodes from which d can be reached in at most k hops. */
  ghost function Ball(g: Graph, d: NodeId, k: nat): set<NodeId>
  {
    if k == 0 then {d} * g.nodes
    else Widened(g, Ball(g, d, k - 1))
  }

  ghost function FirstBall(g: Graph, u: NodeId, d: NodeId, k: nat): nat
    decreases ROUTE_METRIC_INFINITY - k, g, u, d
  {
    if k >= ROUTE_METRIC_INFINITY || u in Ball(g, d, k) then k else FirstBall(g, u, d, k + 1)
  }

  /** Hop distance from u to d, with 16 standing for "no path"; HopDistance shows that is what it is. */
  ghost function Dist(g: Graph, u: NodeId, d: NodeId): nat
  {
    FirstBall(g, u, d, 0)
  }

  lemma {:induction false} FirstBallIs(g: Graph, u: NodeId, d: NodeId, k: nat)
    requires k <= ROUTE_METRIC_INFINITY
    ensures var f := FirstBall(g, u, d, k);
            && k <= f <= ROUTE_METRIC_INFINITY
            && (f < ROUTE_METRIC_INFINITY ==> u in Ball(g, d, f))
            && forall j | k <= j < f :: u !in Ball(g, d, j)
    decreases ROUTE_METRIC_INFINITY - k
  {
    if k < ROUTE_METRIC_INFINITY && u !in Ball(g, d, k) {
      FirstBallIs(g, u, d, k + 1);
    }
  }

  lemma {:induction false} BallGrows(g: Graph, d: NodeId, j: nat, k: nat)
    requires j <= k
    ensures Ball(g, d, j) <= Ball(g, d, k) <= g.nodes
  {
    if j < k {
      BallGrows(g, d, j, k - 1);
    } else if k > 0 {
      BallGrows(g, d, k - 1, k - 1);
    }
  }

  lemma {:induction false} BallFixed(g: Graph, d: NodeId, j: nat, k: nat)
    requires j <= k && Ball(g, d, j) == Ball(g, d, j + 1)
    ensures Ball(g, d, k) == Ball(g, d, j)
  {
    if j < k {
      BallFixed(g, d, j, k - 1);
      assert Ball(g, d, k) == Widened(g, Ball(g, d, k - 1));
      assert Ball(g, d, j + 1) == Widened(g, Ball(g, d, j));
    }
  }

  /** A set that has more than k nodes or does not grow any further. */
  ghost predicate LargeOrFull(g: Graph, s: set<NodeId>, k: nat) {
    |s| > k || Widened(g, s) == s
  }

  lemma WiderSize(g: Graph, s: set<NodeId>, j: nat, k: nat)
    requires k == j + 1 && LargeOrFull(g, s, j)
    ensures LargeOrFull(g, Widened(g, s), k)
  {
    if Widened(g, s) != s {
      ProperSubsetSize(s, Widened(g, s));
    }
  }

  /** A ball that is still growing after k hops has more than k nodes. */
  lemma {:induction false} BallSize(g: Graph, d: NodeId, k: nat)
    requires d in g.nodes
    ensures LargeOrFull(g, Ball(g, d, k), k)
  {
    if k == 0 {
      assert Ball(g, d, k) == {d};
    } else {
      BallSize(g, d, k - 1);
      WiderSize(g, Ball(g, d, k - 1), k - 1, k);
    }
  }

  lemma ProperSubsetSize(a: set<NodeId>, b: set<NodeId>)
    requires a <= b && a != b
    ensures |a| < |b|
  {
    var x :| x in b && x !in a;
    SubsetSize(a + {x}, b);
  }

  /** With at most 16 nodes, 15 hops reach whatever can be reached. */
  lemma BallSaturates(g: Graph, d: NodeId, k: nat)
    requires d in g.nodes && |g.nodes| <= MAX_ROUTE_TABLE_ENTRIES
    ensures Ball(g, d, k) <= Ball(g, d, 15)
  {
    if k <= 15 {
      BallGrows(g, d, k, 15);
    } else {
      BallSize(g, d, 15);
      if Ball(g, d, 15) == Ball(g, d, 16) {
        BallFixed(g, d, 15, k);
      } else {
        BallGrows(g, d, 15, k);
        if Ball(g, d, 15) != g.nodes {
          ProperSubsetSize(Ball(g, d, 15), g.nodes);
        }
      }
    }
  }

  lemma InBallIff(g: Graph, u: NodeId, d: NodeId, k: nat)
    requires d in g.nodes && |g.nodes| <= MAX_ROUTE_TABLE_ENTRIES
    ensures k < ROUTE_METRIC_INFINITY ==> (u in Ball(g, d, k) <==> Dist(g, u, d) <= k)
    ensures u in Ball(g, d, k) ==> Dist(g, u, d) <= k && Dist(g, u, d) < ROUTE_METRIC_INFINITY
    ensures Dist(g, u, d) <= ROUTE_METRIC_INFINITY
  {
    FirstBallIs(g, u, d, 0);
    BallSaturates(g, d, k);
    var f := Dist(g, u, d);
    if f <= k && f < ROUTE_METRIC_INFINITY {
      BallGrows(g, d, f, k);
    }
  }

  // ---------- the local laws the protocol proofs use ----------

  lemma DistZero(g: Graph, u: NodeId, d: NodeId)
    requires ValidGraph(g) && u in g.nodes && d in g.nodes
    ensures Dist(g, u, d) == 0 <==> u == d
    ensures Dist(g, u, d) == 1 <==> d in Links(g, u)
  {
    InBallIff(g, u, d, 0);
    InBallIff(g, u, d, 1);
    assert Ball(g, d, 1) == Widened(g, Ball(g, d, 0));
  }

  /** One hop changes the distance by at most one upwards. */
  lemma DistStep(g: Graph, u: NodeId, n: NodeId, d: NodeId)
    requires ValidGraph(g) && u in g.nodes && d in g.nodes && n in Links(g, u)
    ensures Dist(g, u, d) <= Dist(g, n, d) + 1
  {
    var k := Dist(g, n, d);
    InBallIff(g, n, d, k);
    InBallIff(g, u, d, k + 1);
    if k < ROUTE_METRIC_INFINITY {
      assert n in Links(g, u) && n in Ball(g, d, k);
    }
  }

  /** Who enters the ball at k has a neighbour that was in it before. */
  lemma Newcomer(g: Graph, u: NodeId, d: NodeId, j: nat, k: nat) returns (n: NodeId)
    requires k == j + 1 && u in Ball(g, d, k) && u !in Ball(g, d, j)
    ensures n in Links(g, u) && n in Ball(g, d, j)
  {
    assert Ball(g, d, k) == Widened(g, Ball(g, d, j));
    n :| n in Links(g, u) && n in Ball(g, d, j);
  }

  lemma NewcomerDist(g: Graph, u: NodeId, n: NodeId, d: NodeId, j: nat)
    requires ValidGraph(g) && u in g.nodes && d in g.nodes && n in Links(g, u) && n in Ball(g, d, j)
    requires Dist(g, u, d) == j + 1
    ensures Dist(g, n, d) == j
  {
    InBallIff(g, n, d, j);
    DistStep(g, u, n, d);
  }

  /** Some neighbour is one hop nearer. */
  lemma DistNearer(g: Graph, u: NodeId, d: NodeId) returns (n: NodeId)
    requires ValidGraph(g) && u in g.nodes && d in g.nodes && 0 < Dist(g, u, d) < ROUTE_METRIC_INFINITY
    ensures n in Links(g, u) && Dist(g, n, d) == Dist(g, u, d) - 1
  {
    var k := Dist(g, u, d);
    var j := k - 1;
    InBallIff(g, u, d, k);
    InBallIff(g, u, d, j);
    n := Newcomer(g, u, d, j, k);
    NewcomerDist(g, u, n, d, j);
  }

  // ---------- Dist is the length of a shortest path ----------

  lemma {:induction false} PathBoundsDist(g: Graph, p: seq<NodeId>, u: NodeId, d: NodeId)
    requires ValidGraph(g) && IsPath(g, p, u, d)
    ensures Dist(g, u, d) <= |p| - 1 && Dist(g, u, d) < ROUTE_METRIC_INFINITY
  {
    PathInBall(g, p, u, d);
    InBallIff(g, u, d, |p| - 1);
  }

  lemma {:induction false} PathInBall(g: Graph, p: seq<NodeId>, u: NodeId, d: NodeId)
    requires ValidGraph(g) && IsPath(g, p, u, d)
    ensures u in Ball(g, d, |p| - 1) && u in g.nodes && d in g.nodes
  {
    assert p[0] in p && p[|p| - 1] in p;
    if |p| > 1 {
      assert p[1] in Links(g, p[0]);
      PathInBall(g, p[1..], p[1], d);
      assert p[1] in Ball(g, d, |p| - 2);
    }
  }

  lemma {:induction false} ShortestPath(g: Graph, u: NodeId, d: NodeId) returns (p: seq<NodeId>)
    requires ValidGraph(g) && u in g.nodes && d in g.nodes && Dist(g, u, d) < ROUTE_METRIC_INFINITY
    ensures IsPath(g, p, u, d) && |p| == Dist(g, u, d) + 1
    decreases Dist(g, u, d)
  {
    DistZero(g, u, d);
    if u == d {
      p := [u];
    } else {
      var n := DistNearer(g, u, d);
      var rest := ShortestPath(g, n, d);
      p := [u] + rest;
      assert forall i | 0 <= i < |p| - 1 :: p[i + 1] == rest[i] && (i > 0 ==> p[i] == rest[i - 1]);
    }
  }

  /** Dist is the number of hops of a shortest path, and 16 exactly if there is no path. */
  lemma HopDistance(g: Graph, u: NodeId, d: NodeId)
    requires ValidGraph(g) && u in g.nodes && d in g.nodes
    ensures forall p | IsPath(g, p, u, d) :: Dist(g, u, d) <= |p| - 1
    ensures Dist(g, u, d) < ROUTE_METRIC_INFINITY <==> exists p :: IsPath(g, p, u, d)
    ensures Dist(g, u, d) < ROUTE_METRIC_INFINITY ==> exists p :: IsPath(g, p, u, d) && |p| - 1 == Dist(g, u, d)
    ensures Dist(g, u, d) <= ROUTE_METRIC_INFINITY
  {
    FirstBallIs(g, u, d, 0);
    forall p | IsPath(g, p, u, d) ensures Dist(g, u, d) <= |p| - 1 && Dist(g, u, d) < ROUTE_METRIC_INFINITY {
      PathBoundsDist(g, p, u, d);
    }
    if Dist(g, u, d) < ROUTE_METRIC_INFINITY {
      var p := ShortestPath(g, u, d);
    }
  }
}
