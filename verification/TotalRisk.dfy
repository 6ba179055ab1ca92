/** The README offers the route of least risk.  The search compares single legs instead of sums:
    how far the sum of its route can be from the least one, when it is the least one, and a network
    on which it is not. */
module TotalRisk {
  import opened Timetable
  import opened SearchLabels
  import opened RouteSearch
  import opened Optimality

  /** The sum of the risks of the hops at the labels of their cities. */
  ghost function Sum(net: Network, q: Query, l: Labels, hops: seq<Hop>): int
    requires net.Valid() && Shape(net.Size(), l) && Allowed(net, q, l, hops)
  {
    if hops == [] then 0 else
      LabelWeight(net, q, l, hops[0].city, hops[0].index) + Sum(net, q, l, hops[1..])
  }

  lemma {:induction false} WeightNonNegative(net: Network, q: Query, l: Labels, u: int, i: int)
    requires net.Valid() && net.HasRoute(u, i) && Shape(net.Size(), l)
    ensures LabelWeight(net, q, l, u, i) >= 0
  {
    var t := Label(q, l, u);
    LegRiskNonNegative(net, u == q.start, u, i, Departure(net.routes[u][i].startTime, t) - t);
  }

  lemma {:induction false} SumNonNegative(net: Network, q: Query, l: Labels, hops: seq<Hop>)
    requires net.Valid() && Shape(net.Size(), l) && Allowed(net, q, l, hops)
    ensures Sum(net, q, l, hops) >= 0
  {
    if hops != [] {
      WeightNonNegative(net, q, l, hops[0].city, hops[0].index);
      SumNonNegative(net, q, l, hops[1..]);
    }
  }

  /** Every hop leaves a city the search has visited. */
  ghost predicate OutOfVisited(net: Network, l: Labels, hops: seq<Hop>)
    requires Shape(net.Size(), l)
  {
    forall h :: h in hops ==> 0 <= h.city < net.Size() && l.visit[h.city]
  }

  lemma {:induction false} SumAndPeak(net: Network, q: Query, l: Labels, hops: seq<Hop>)
    requires net.Valid() && Shape(net.Size(), l) && Allowed(net, q, l, hops) && OutOfVisited(net, l, hops)
    ensures Peak(net, q, l, hops) <= Sum(net, q, l, hops) <= |hops| * Peak(net, q, l, hops)
  {
    PeakNonNegative(net, q, l, hops);
    if hops != [] {
      var rest := hops[1..];
      SumAndPeak(net, q, l, rest);
      SumNonNegative(net, q, l, rest);
      WeightNonNegative(net, q, l, hops[0].city, hops[0].index);
      Grows(|rest|, Peak(net, q, l, rest), Peak(net, q, l, hops));
    }
  }

  lemma {:induction false} Grows(n: nat, a: int, b: int)
    requires a <= b
    ensures n * a + b <= (n + 1) * b
  {
    assert n * (b - a) >= 0;
  }

  lemma {:induction false} PathIsVisited(net: Network, q: Query, l: Labels, order: seq<int>, path: seq<int>)
    requires ValidQuery(net, q) && Tree(net, q, l, order) && TreePath(net.Size(), l, order, path)
    ensures OutOfVisited(net, l, HopsOf(l, path))
  {
    if |path| > 1 { PathIsVisited(net, q, l, order, path[1..]); }
  }

  /** How far off the total can be: no route out of visited cities has a sum smaller than the sum
      of the returned route divided by its number of legs. */
  lemma {:induction false} TotalIsBounded(net: Network, q: Query, l: Labels, order: seq<int>, path: seq<int>,
                                       rival: seq<Hop>)
    requires ValidQuery(net, q) && SearchDone(net, q, l, order) && l.visit[q.dest]
    requires TreePath(net.Size(), l, order, path) && path[0] == q.start && path[|path| - 1] == q.dest
    requires Trail(net, q.start, rival, q.dest) && Allowed(net, q, l, rival) && OutOfVisited(net, l, rival)
    ensures var hops := HopsOf(l, path);
      Allowed(net, q, l, hops) && Sum(net, q, l, hops) <= |hops| * Sum(net, q, l, rival)
  {
    var hops := HopsOf(l, path);
    BottleneckOptimal(net, q, l, order, path, rival);
    PathIsVisited(net, q, l, order, path);
    SumAndPeak(net, q, l, hops);
    SumAndPeak(net, q, l, rival);
    Scale(|hops|, Peak(net, q, l, hops), Sum(net, q, l, rival));
  }

  lemma {:induction false} Scale(n: nat, a: int, b: int)
    requires a <= b
    ensures n * a <= n * b
  {
    assert n * (b - a) >= 0;
  }

  /** A condition a caller can check beforehand: leg `d` goes straight to the destination, is in
      time, and is less risky than every other leg out of the start that is in time. */
  ghost predicate DirectIsSafest(net: Network, q: Query, d: int)
    requires ValidQuery(net, q)
  {
    && net.HasRoute(q.start, d) && net.Target(q.start, d) == q.dest && InTime(net, q, q.start, d, q.startT)
    && WeightAt(net, q, q.start, d, q.startT) < INF
    && forall i :: net.HasRoute(q.start, i) && i != d && InTime(net, q, q.start, i, q.startT) ==>
         WeightAt(net, q, q.start, d, q.startT) < WeightAt(net, q, q.start, i, q.startT)
  }

  lemma {:induction false} StartLabel(net: Network, q: Query, l: Labels, order: seq<int>)
    requires ValidQuery(net, q) && Tree(net, q, l, order)
    ensures l.visit[q.start] && Label(q, l, q.start) == q.startT
  {
    assert order[0] in order;
  }

  /** Then the destination is the second city visited, by that leg. */
  lemma {:induction false} DirectIsChosen(net: Network, q: Query, l: Labels, order: seq<int>, d: int)
    requires ValidQuery(net, q) && SearchDone(net, q, l, order) && DirectIsSafest(net, q, d)
    ensures l.visit[q.dest] && order == [q.start, q.dest]
    ensures l.prev[q.dest] == q.start && l.route[q.start][q.dest] == d
  {
    StartLabel(net, q, l, order);
    assert LabelWeight(net, q, l, q.start, d) < INF;
    assert |order| > 1;
    assert order[..1] == [q.start];
    assert TreeNode(net, q, l, order, 1);
    var v := order[1];
    var i := l.route[q.start][v];
    assert l.prev[v] == q.start && net.HasRoute(q.start, i);
    assert q.dest !in order[..1] && q.start in order[..1];
    assert l.risks[v] <= LabelWeight(net, q, l, q.start, d);
    assert i == d && v == q.dest;
    assert q.dest in order && order[|order| - 1] == q.dest;
  }

  /** When the total is least: under that condition the search returns the direct leg, and no
      allowed route at all has a smaller sum. */
  lemma {:induction false} DirectIsLeast(net: Network, q: Query, l: Labels, order: seq<int>, path: seq<int>,
                                      d: int, rival: seq<Hop>)
    requires ValidQuery(net, q) && SearchDone(net, q, l, order) && DirectIsSafest(net, q, d)
    requires TreePath(net.Size(), l, order, path) && path[0] == q.start && path[|path| - 1] == q.dest
    requires Trail(net, q.start, rival, q.dest) && Allowed(net, q, l, rival)
    ensures l.visit[q.dest] && HopsOf(l, path) == [Hop(q.start, d)]
    ensures Allowed(net, q, l, HopsOf(l, path)) && Sum(net, q, l, HopsOf(l, path)) <= Sum(net, q, l, rival)
  {
    hide HopsOf, TreePath;
    DirectIsChosen(net, q, l, order, d);
    StartLabel(net, q, l, order);
    PathOfTwo(net, q, l, order, path);
    OneHop(l, q.start, q.dest);
    var direct, h := Hop(q.start, d), rival[0];
    OneHopCosts(net, q, l, direct);
    assert h in rival && h.city == q.start;
    SumNonNegative(net, q, l, rival[1..]);
  }

  lemma {:induction false} OneHop(l: Labels, u: int, v: int)
    requires Shape(|l.prev|, l) && 0 <= u < |l.prev| && 0 <= v < |l.prev|
    ensures HopsOf(l, [u, v]) == [Hop(u, l.route[u][v])]
  {
    assert [u, v][1..] == [v] && HopsOf(l, [v]) == [];
  }

  lemma {:induction false} OneHopCosts(net: Network, q: Query, l: Labels, h: Hop)
    requires net.Valid() && Shape(net.Size(), l) && net.HasRoute(h.city, h.index)
    requires LabelInTime(net, q, l, h.city, h.index)
    ensures Allowed(net, q, l, [h]) && Sum(net, q, l, [h]) == LabelWeight(net, q, l, h.city, h.index)
  {
    assert [h][1..] == [];
  }

  lemma {:induction false} LastIsBehind(path: seq<int>)
    ensures |path| > 2 ==> path[|path| - 1] in path[1..][1..]
  {
    if |path| > 2 { assert path[1..][1..][|path| - 3] == path[|path| - 1]; }
  }

  lemma {:induction false} PathOfTwo(net: Network, q: Query, l: Labels, order: seq<int>, path: seq<int>)
    requires ValidQuery(net, q) && Tree(net, q, l, order) && order == [q.start, q.dest]
    requires TreePath(net.Size(), l, order, path) && path[0] == q.start && path[|path| - 1] == q.dest
    ensures path == [q.start, q.dest]
  {
    var rest := path[1..];
    LastIsBehind(path);
    assert TreePath(net.Size(), l, order, rest) && rest[0] in rest;
  }

  /** When the returned route is a single leg its sum is the least among the routes out of visited
      cities, whatever led the search to it. */
  lemma {:induction false} SingleLegIsLeast(net: Network, q: Query, l: Labels, order: seq<int>, path: seq<int>,
                                         rival: seq<Hop>)
    requires ValidQuery(net, q) && SearchDone(net, q, l, order) && l.visit[q.dest] && |path| == 2
    requires TreePath(net.Size(), l, order, path) && path[0] == q.start && path[1] == q.dest
    requires Trail(net, q.start, rival, q.dest) && Allowed(net, q, l, rival) && OutOfVisited(net, l, rival)
    ensures Allowed(net, q, l, HopsOf(l, path)) && Sum(net, q, l, HopsOf(l, path)) <= Sum(net, q, l, rival)
  {
    TotalIsBounded(net, q, l, order, path, rival);
    assert |HopsOf(l, path)| == 1;
  }

  // ---------------------------------------------------------------- where it is not

  /** Three cities without danger, linked by cars: 0 to 1 in two hours, 1 to 2 in four, and a
      direct car from 0 to 2 that takes five. */
  const CARS := Network([0.0, 0.0, 0.0],
    [[Route(2, 1, 0, 120, 1), Route(2, 2, 0, 300, 2)], [Route(2, 2, 120, 240, 3)], []])

  const TRIP := Query(0, 2, 0, 1000)

  lemma {:induction false} CarWeights(l: Labels)
    requires Shape(3, l) && l.prev[0] == -1
    requires l.visit[1] ==> Label(TRIP, l, 1) == 120
    ensures ValidQuery(CARS, TRIP)
    ensures LabelWeight(CARS, TRIP, l, 0, 0) == 4 && LabelInTime(CARS, TRIP, l, 0, 0)
    ensures LabelWeight(CARS, TRIP, l, 0, 1) == 10 && LabelInTime(CARS, TRIP, l, 0, 1)
    ensures l.visit[1] ==> LabelWeight(CARS, TRIP, l, 1, 0) == 8 && LabelInTime(CARS, TRIP, l, 1, 0)
  {
    assert forall u, i :: CARS.HasRoute(u, i) ==> CARS.ValidRoute(CARS.routes[u][i]);
  }

  lemma {:induction false} CityOneByCar(l: Labels, order: seq<int>)
    requires ValidQuery(CARS, TRIP) && Tree(CARS, TRIP, l, order)
    ensures l.visit[1] ==> Label(TRIP, l, 1) == 120
  {
    if l.visit[1] {
      var k :| 0 <= k < |order| && order[k] == 1;
      assert TreeNode(CARS, TRIP, l, order, k);
      var u := l.prev[1];
      assert CARS.HasRoute(u, l.route[u][1]) && CARS.Target(u, l.route[u][1]) == 1;
      assert u == 0 && l.route[u][1] == 0;
    }
  }

  lemma {:induction false} CarsReachTwo(l: Labels, order: seq<int>)
    requires ValidQuery(CARS, TRIP) && SearchDone(CARS, TRIP, l, order)
    ensures l.visit[2]
  {
    CityOneByCar(l, order);
    CarWeights(l);
    assert order[0] in order && l.visit[0];
    assert CARS.HasRoute(0, 1) && CARS.Target(0, 1) == 2;
  }

  /** On that network every search finds a route, and every route a search can return has a total
      risk of 12, while the direct car, allowed and in time, has 10. */
  lemma {:induction false} SumIsNotMinimal(l: Labels, order: seq<int>, path: seq<int>)
    requires ValidQuery(CARS, TRIP) && SearchDone(CARS, TRIP, l, order)
    requires TreePath(3, l, order, path) && path[0] == 0 && path[|path| - 1] == 2
    ensures l.visit[2]
    ensures var hops, direct := HopsOf(l, path), [Hop(0, 1)];
      && Trail(CARS, 0, direct, 2) && Allowed(CARS, TRIP, l, direct) && Sum(CARS, TRIP, l, direct) == 10
      && Trail(CARS, 0, hops, 2) && Allowed(CARS, TRIP, l, hops) && Sum(CARS, TRIP, l, hops) == 12
  {
    CarsReachTwo(l, order);
    CityOneByCar(l, order);
    CarWeights(l);
    assert order[0] in order && l.visit[0];
    var direct, rival := [Hop(0, 1)], [Hop(0, 0), Hop(1, 0)];
    assert rival[1..] == [Hop(1, 0)] && direct[1..] == [] && rival[1..][1..] == [];
    assert Trail(CARS, 1, rival[1..], 2);
    BottleneckOptimal(CARS, TRIP, l, order, path, rival);
    PeakOfRival(l, rival);
    if |path| == 2 {
      TwoStops(l, order, path);
      assert false;
    }
    ThreeStops(l, order, path);
  }

  lemma {:induction false} PeakOfRival(l: Labels, rival: seq<Hop>)
    requires ValidQuery(CARS, TRIP) && Shape(3, l) && rival == [Hop(0, 0), Hop(1, 0)]
    requires Allowed(CARS, TRIP, l, rival) && l.prev[0] == -1 && (l.visit[1] ==> Label(TRIP, l, 1) == 120)
    ensures Peak(CARS, TRIP, l, rival) <= 8
  {
    CarWeights(l);
    assert rival[1..] == [Hop(1, 0)] && rival[1..][1..] == [];
    assert Peak(CARS, TRIP, l, rival[1..][1..]) == 0;
    assert Peak(CARS, TRIP, l, rival[1..]) <= 8;
  }

  lemma {:induction false} TwoStops(l: Labels, order: seq<int>, path: seq<int>)
    requires ValidQuery(CARS, TRIP) && Tree(CARS, TRIP, l, order)
    requires TreePath(3, l, order, path) && |path| == 2 && path[0] == 0 && path[1] == 2
    requires l.visit[1] ==> Label(TRIP, l, 1) == 120
    requires Allowed(CARS, TRIP, l, HopsOf(l, path))
    ensures Peak(CARS, TRIP, l, HopsOf(l, path)) >= 10
  {
    CarWeights(l);
    TreeEdge(CARS, TRIP, l, order, path[1]);
    var i := l.route[0][2];
    assert CARS.HasRoute(0, i) && CARS.Target(0, i) == 2;
    assert l.visit[0];
    assert HopsOf(l, path)[1..] == [];
    PeakBounds(CARS, TRIP, l, HopsOf(l, path), 0);
  }

  lemma {:induction false} NoCarLeavesTwo(l: Labels, order: seq<int>)
    requires ValidQuery(CARS, TRIP) && Tree(CARS, TRIP, l, order)
    ensures forall v :: v in order && 0 <= v < 3 ==> l.prev[v] != 2
  {
    forall v | v in order && 0 <= v < 3 && l.prev[v] != -1 ensures l.prev[v] != 2 {
      TreeEdge(CARS, TRIP, l, order, v);
      assert CARS.HasRoute(l.prev[v], l.route[l.prev[v]][v]);
    }
  }

  lemma {:induction false} ThreeStops(l: Labels, order: seq<int>, path: seq<int>)
    requires ValidQuery(CARS, TRIP) && Tree(CARS, TRIP, l, order)
    requires TreePath(3, l, order, path) && path[0] == 0 && path[|path| - 1] == 2 && |path| != 2
    requires l.visit[1] ==> Label(TRIP, l, 1) == 120
    requires Allowed(CARS, TRIP, l, HopsOf(l, path))
    ensures Sum(CARS, TRIP, l, HopsOf(l, path)) == 12
  {
    var p1 := path[1..];
    var p2 := p1[1..];
    assert TreePath(3, l, order, p1) && |p1| > 1 && TreePath(3, l, order, p2);
    TreeEdge(CARS, TRIP, l, order, p1[0]);
    TreeEdge(CARS, TRIP, l, order, p2[0]);
    CarWeights(l);
    var i, j := l.route[0][p1[0]], l.route[p1[0]][p2[0]];
    assert CARS.HasRoute(0, i) && CARS.Target(0, i) == p1[0];
    assert CARS.HasRoute(p1[0], j) && CARS.Target(p1[0], j) == p2[0];
    assert p1[0] == 1 && p2[0] == 2 && i == 0 && j == 0;
    NoCarLeavesTwo(l, order);
    assert |p2| == 1;
    var hops := HopsOf(l, path);
    assert hops[1..] == HopsOf(l, p1) && hops[1..][1..] == HopsOf(l, p2) == [];
    assert Allowed(CARS, TRIP, l, HopsOf(l, p1)) && Allowed(CARS, TRIP, l, []);
    assert Sum(CARS, TRIP, l, HopsOf(l, p2)) == 0;
    assert Sum(CARS, TRIP, l, HopsOf(l, p1)) == 8;
  }
}
