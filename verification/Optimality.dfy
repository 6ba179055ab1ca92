/** What the search guarantees about routes through the network: bottleneck optimality of the
    route it finds, and when a missing route means that there is none. */
module Optimality {
  import opened Timetable
  import opened SearchLabels
  import opened RouteSearch

  /** One leg: route number `index` out of `city`. */
  datatype Hop = Hop(city: int, index: int)

  predicate Trail(net: Network, a: int, hops: seq<Hop>, b: int)
    decreases hops
  {
    if hops == [] then a == b
    else
      && hops[0].city == a
      && net.HasRoute(a, hops[0].index)
      && Trail(net, net.Target(a, hops[0].index), hops[1..], b)
  }

  /** Every hop is a route, and hops out of visited cities are in time at their labels. */
  ghost predicate Allowed(net: Network, q: Query, l: Labels, hops: seq<Hop>)
    requires net.Valid() && Shape(net.Size(), l)
  {
    forall h :: h in hops ==>
      net.HasRoute(h.city, h.index) && (l.visit[h.city] ==> LabelInTime(net, q, l, h.city, h.index))
  }

  /** The largest risk among the hops out of visited cities. */
  ghost function Peak(net: Network, q: Query, l: Labels, hops: seq<Hop>): int
    requires net.Valid() && Shape(net.Size(), l) && Allowed(net, q, l, hops)
  {
    if hops == [] then 0 else
      var h := hops[0];
      var rest := Peak(net, q, l, hops[1..]);
      if l.visit[h.city] && LabelWeight(net, q, l, h.city, h.index) > rest
      then LabelWeight(net, q, l, h.city, h.index) else rest
  }

  lemma {:induction false} PeakBounds(net: Network, q: Query, l: Labels, hops: seq<Hop>, j: nat)
    requires net.Valid() && Shape(net.Size(), l) && Allowed(net, q, l, hops)
    requires j < |hops| && l.visit[hops[j].city]
    ensures LabelWeight(net, q, l, hops[j].city, hops[j].index) <= Peak(net, q, l, hops)
  {
    if j > 0 {
      assert hops[1..][j - 1] == hops[j];
      PeakBounds(net, q, l, hops[1..], j - 1);
    }
  }

  /** A trail from inside a set of cities to its outside has a hop that leaves the set. */
  lemma {:induction false} Crossing(net: Network, a: int, hops: seq<Hop>, b: int, inside: seq<int>) returns (j: nat)
    requires Trail(net, a, hops, b) && a in inside && b !in inside
    ensures j < |hops| && net.HasRoute(hops[j].city, hops[j].index)
    ensures hops[j].city in inside && net.Target(hops[j].city, hops[j].index) !in inside
    decreases hops
  {
    var c := net.Target(a, hops[0].index);
    if c in inside {
      var i := Crossing(net, c, hops[1..], b, inside);
      assert hops[1..][i] == hops[i + 1];
      j := i + 1;
    } else {
      j := 0;
    }
  }

  /** Every allowed trail from `start` to `dest` crosses the cut that was open at each choice the
      search made, so it has a hop at least as risky as that choice. */
  lemma {:induction false} EveryTrailCrossesEveryCut(net: Network, q: Query, l: Labels, order: seq<int>,
        hops: seq<Hop>, k: nat)
    requires ValidQuery(net, q) && SearchDone(net, q, l, order) && l.visit[q.dest]
    requires Trail(net, q.start, hops, q.dest) && Allowed(net, q, l, hops)
    requires 1 <= k < |order|
    ensures l.risks[order[k]] <= Peak(net, q, l, hops)
  {
    assert order[0] in order[..k];
    assert q.dest !in order[..k];
    var j := Crossing(net, q.start, hops, q.dest, order[..k]);
    assert TreeNode(net, q, l, order, k);
    var h := hops[j];
    assert h in hops && h.city in order;
    PeakBounds(net, q, l, hops, j);
  }

  /** A simple path of the tree: consecutive cities are linked by `prev`. */
  ghost predicate TreePath(n: nat, l: Labels, order: seq<int>, path: seq<int>)
    requires Shape(n, l)
  {
    && path != [] && path[0] in order && 0 <= path[0] < n
    && (|path| > 1 ==>
          path[0] !in path[1..] && TreePath(n, l, order, path[1..]) && l.prev[path[1]] == path[0])
  }

  function HopsOf(l: Labels, path: seq<int>): seq<Hop>
    requires Shape(|l.prev|, l)
  {
    if |path| < 2 || !(0 <= path[0] < |l.prev| && 0 <= path[1] < |l.prev|) then []
    else [Hop(path[0], l.route[path[0]][path[1]])] + HopsOf(l, path[1..])
  }

  lemma {:induction false} TreeEdge(net: Network, q: Query, l: Labels, order: seq<int>, v: int)
    requires ValidQuery(net, q) && Tree(net, q, l, order) && v in order && l.prev[v] != -1
    ensures Witnessed(net, q, l, v) && l.risks[v] < INF
    ensures exists k :: 1 <= k < |order| && order[k] == v
  {
    var k :| 0 <= k < |order| && order[k] == v;
    assert TreeNode(net, q, l, order, k);
  }

  /** The hops of a tree path form an allowed trail whose risks are the recorded ones. */
  lemma {:induction false} TreePathIsTrail(net: Network, q: Query, l: Labels, order: seq<int>, path: seq<int>,
        bound: int)
    requires ValidQuery(net, q) && Tree(net, q, l, order) && TreePath(net.Size(), l, order, path)
    requires bound >= 0 && forall k :: 1 <= k < |order| ==> l.risks[order[k]] <= bound
    ensures var hops := HopsOf(l, path);
      && Trail(net, path[0], hops, path[|path| - 1])
      && Allowed(net, q, l, hops)
      && Peak(net, q, l, hops) <= bound
  {
    if |path| >= 2 {
      TreePathIsTrail(net, q, l, order, path[1..], bound);
      TreeEdge(net, q, l, order, path[1]);
      var hops := HopsOf(l, path);
      assert hops[1..] == HopsOf(l, path[1..]);
      assert path[1..][|path| - 2] == path[|path| - 1];
    }
  }

  /** Bottleneck optimality.  Weighing and pruning each hop at the arrival label of its city, no
      route to the destination has a smaller greatest risk than the one returned. */
  lemma {:induction false} BottleneckOptimal(net: Network, q: Query, l: Labels, order: seq<int>, path: seq<int>,
        rival: seq<Hop>)
    requires ValidQuery(net, q) && SearchDone(net, q, l, order) && l.visit[q.dest]
    requires TreePath(net.Size(), l, order, path) && path[0] == q.start && path[|path| - 1] == q.dest
    requires Trail(net, q.start, rival, q.dest) && Allowed(net, q, l, rival)
    ensures var hops := HopsOf(l, path);
      && Trail(net, q.start, hops, q.dest) && Allowed(net, q, l, hops)
      && Peak(net, q, l, hops) <= Peak(net, q, l, rival)
  {
    forall k | 1 <= k < |order| ensures l.risks[order[k]] <= Peak(net, q, l, rival) {
      EveryTrailCrossesEveryCut(net, q, l, order, rival, k);
    }
    PeakNonNegative(net, q, l, rival);
    TreePathIsTrail(net, q, l, order, path, Peak(net, q, l, rival));
  }

  lemma {:induction false} PeakNonNegative(net: Network, q: Query, l: Labels, hops: seq<Hop>)
    requires net.Valid() && Shape(net.Size(), l) && Allowed(net, q, l, hops)
    ensures Peak(net, q, l, hops) >= 0
  {
    if hops != [] {
      PeakNonNegative(net, q, l, hops[1..]);
    }
  }

  lemma {:induction false} TreePathReaches(net: Network, q: Query, l: Labels, order: seq<int>, path: seq<int>)
    requires ValidQuery(net, q) && Tree(net, q, l, order) && TreePath(net.Size(), l, order, path)
    ensures var hops := HopsOf(l, path);
      Trail(net, path[0], hops, path[|path| - 1]) && Allowed(net, q, l, hops) && Peak(net, q, l, hops) < INF
  {
    forall k | 1 <= k < |order| ensures l.risks[order[k]] <= INF - 1 {
      assert TreeNode(net, q, l, order, k);
    }
    TreePathIsTrail(net, q, l, order, path, INF - 1);
  }

  /** For any time limit: the destination is reached exactly when some route is in time at the
      labels and has no hop of risk INF or more out of a visited city. */
  lemma {:induction false} ReachedIffAllowedRoute(net: Network, q: Query, l: Labels, order: seq<int>, path: seq<int>)
    requires ValidQuery(net, q) && SearchDone(net, q, l, order)
    requires l.visit[q.dest] ==>
      TreePath(net.Size(), l, order, path) && path[0] == q.start && path[|path| - 1] == q.dest
    ensures l.visit[q.dest] <==> exists hops :: AllowedRoute(net, q, l, hops)
  {
    if l.visit[q.dest] {
      TreePathReaches(net, q, l, order, path);
      assert AllowedRoute(net, q, l, HopsOf(l, path));
    } else {
      assert order[0] in order;
      forall hops | AllowedRoute(net, q, l, hops) ensures false {
        var j := Crossing(net, q.start, hops, q.dest, order);
        assert hops[j] in hops;
        PeakBounds(net, q, l, hops, j);
      }
    }
  }

  ghost predicate AllowedRoute(net: Network, q: Query, l: Labels, hops: seq<Hop>)
    requires ValidQuery(net, q) && Shape(net.Size(), l)
  {
    Trail(net, q.start, hops, q.dest) && Allowed(net, q, l, hops) && Peak(net, q, l, hops) < INF
  }

  // ---------------------------------------------------------------- reachability

  /** No ride costs more than `maxCost` and no leg, however long the wait, reaches INF. */
  ghost predicate Bounded(net: Network, maxCost: int)
    requires net.Valid()
  {
    && maxCost >= 0
    && (forall u, i :: net.HasRoute(u, i) ==> net.routes[u][i].costTime <= maxCost)
    && (forall u, i, wait, first :: net.HasRoute(u, i) && 0 <= wait < DAY ==> LegRisk(net, first, u, i, wait) < INF)
  }

  /** The longest a leg can take, waiting included. */
  function LegTime(maxCost: int): int { DAY - 1 + maxCost }

  /** The limit leaves `LegTime` for as many legs as a simple route can have. */
  ghost predicate Generous(net: Network, q: Query, maxCost: int) {
    q.limit >= (net.Size() - 1) * LegTime(maxCost)
  }

  lemma {:induction false} OneMoreLeg(net: Network, q: Query, l: Labels, maxCost: int, u: int, i: int)
    requires ValidQuery(net, q) && Shape(net.Size(), l) && Bounded(net, maxCost) && net.HasRoute(u, i)
    requires Label(q, l, u) >= q.startT
    ensures Label(q, l, u) <= ArriveAt(net, u, i, Label(q, l, u)) <= Label(q, l, u) + LegTime(maxCost)
    ensures LabelWeight(net, q, l, u, i) < INF
  {
    DepartureIsEarliest(net.routes[u][i].startTime, Label(q, l, u), 0);
  }

  lemma {:induction false} LabelBound(net: Network, q: Query, l: Labels, order: seq<int>, maxCost: int, k: nat)
    requires ValidQuery(net, q) && Tree(net, q, l, order) && Bounded(net, maxCost) && k < |order|
    ensures q.startT <= Label(q, l, order[k]) <= q.startT + k * LegTime(maxCost)
  {
    if k > 0 {
      assert TreeNode(net, q, l, order, k);
      var v := order[k];
      var u := l.prev[v];
      var j :| 0 <= j < k && order[..k][j] == u;
      LabelBound(net, q, l, order, maxCost, j);
      OneMoreLeg(net, q, l, maxCost, u, l.route[u][v]);
      Multiply(j, k, LegTime(maxCost));
    }
  }

  lemma {:induction false} Multiply(a: int, b: int, c: int)
    requires a + 1 <= b && c >= 0
    ensures a * c + c <= b * c
  {
    assert (b - a - 1) * c >= 0;
  }

  lemma {:induction false} Pruned(net: Network, q: Query, l: Labels, order: seq<int>, maxCost: int, u: int, i: int)
    requires ValidQuery(net, q) && Tree(net, q, l, order) && Bounded(net, maxCost) && Generous(net, q, maxCost)
    requires u in order && net.HasRoute(u, i) && net.Target(u, i) !in order
    ensures LabelInTime(net, q, l, u, i) && LabelWeight(net, q, l, u, i) < INF
  {
    var k :| 0 <= k < |order| && order[k] == u;
    LabelBound(net, q, l, order, maxCost, k);
    OrderIsBounded(net.Size(), order);
    Multiply(k, net.Size() - 1, LegTime(maxCost));
    OneMoreLeg(net, q, l, maxCost, u, i);
  }

  lemma {:induction false} ClosedUnderTrails(net: Network, q: Query, l: Labels, order: seq<int>, maxCost: int,
        a: int, hops: seq<Hop>)
    requires ValidQuery(net, q) && Tree(net, q, l, order) && Exhausted(net, q, l)
    requires Bounded(net, maxCost) && Generous(net, q, maxCost)
    requires a in order && Trail(net, a, hops, q.dest)
    ensures q.dest in order
    decreases hops
  {
    if hops != [] {
      var c := net.Target(a, hops[0].index);
      if c !in order {
        Pruned(net, q, l, order, maxCost, a, hops[0].index);
        assert false;
      }
      ClosedUnderTrails(net, q, l, order, maxCost, c, hops[1..]);
    }
  }

  ghost predicate Reachable(net: Network, a: int, b: int) {
    exists hops :: Trail(net, a, hops, b)
  }

  lemma {:induction false} NotReachedNotReachable(net: Network, q: Query, l: Labels, order: seq<int>, maxCost: int)
    requires ValidQuery(net, q) && Tree(net, q, l, order) && Exhausted(net, q, l) && q.dest !in order
    requires Bounded(net, maxCost) && Generous(net, q, maxCost)
    ensures !Reachable(net, q.start, q.dest)
  {
    if Reachable(net, q.start, q.dest) {
      var hops :| Trail(net, q.start, hops, q.dest);
      assert order[0] in order;
      ClosedUnderTrails(net, q, l, order, maxCost, q.start, hops);
    }
  }

  /** Completeness.  When the limit leaves a full day of waiting and the longest ride for every
      leg, the search reaches the destination exactly when some sequence of routes does. */
  lemma {:induction false} ReachedIffReachable(net: Network, q: Query, l: Labels, order: seq<int>, path: seq<int>,
        maxCost: int)
    requires ValidQuery(net, q) && SearchDone(net, q, l, order)
    requires Bounded(net, maxCost) && Generous(net, q, maxCost)
    requires l.visit[q.dest] ==>
      TreePath(net.Size(), l, order, path) && path[0] == q.start && path[|path| - 1] == q.dest
    ensures l.visit[q.dest] <==> Reachable(net, q.start, q.dest)
  {
    if l.visit[q.dest] {
      TreePathReaches(net, q, l, order, path);
    } else {
      NotReachedNotReachable(net, q, l, order, maxCost);
    }
  }
}
