/** The greedy search loops. */
module RouteSearch {
  import opened Timetable
  import opened SearchLabels

  /** The labels before anything has been looked at. */
  function Initial(n: nat, q: Query): Labels
    requires 0 <= q.start < n
  {
    var zeros := seq(n, _ => 0);
    Labels(
      seq(n, _ => false)[q.start := true],
      seq(n, _ => INF)[q.start := 0],
      seq(n, _ => -1),
      seq(n, _ => zeros)[q.start := seq(n, _ => q.startT)],
      seq(n, _ => zeros))
  }

  lemma {:induction false} InitialIsTree(net: Network, q: Query)
    requires ValidQuery(net, q)
    ensures Tree(net, q, Initial(net.Size(), q), [q.start])
    ensures Frontier(net, q, Initial(net.Size(), q), q.start, 0)
  {
  }

  /** One leg out of the start city.  Visited targets are not skipped here, but no leg beats the
      zero risk of the start city itself. */
  method RelaxStartLeg(net: Network, q: Query, l0: Labels, i: int) returns (l: Labels)
    requires ValidQuery(net, q) && Shape(net.Size(), l0) && net.HasRoute(q.start, i)
    requires l0.prev[q.start] == -1 && l0.risks[q.start] == 0
    requires l0.visit[net.Target(q.start, i)] ==> net.Target(q.start, i) == q.start
    ensures l == Relaxed(net, q, l0, q.start, i)
    ensures l.prev[q.start] == -1 && l.risks[q.start] == 0
  {
    l := l0;
    var curCity, prevTime := q.start, q.startT;
    var route := net.routes[curCity][i];
    var realStartTime := NextDeparture(route.startTime, prevTime);
    var waitTime := realStartTime - prevTime;
    if waitTime + route.costTime > q.limit {
      return;
    }
    var risk := LegRisk(net, true, curCity, i, waitTime);
    LegRiskNonNegative(net, true, curCity, i, waitTime);
    if risk < l.risks[route.destCity] {
      l := Record(l, curCity, route.destCity, i, risk, prevTime + waitTime + route.costTime);
    }
  }

  method RelaxStart(net: Network, q: Query, l0: Labels) returns (l: Labels)
    requires ValidQuery(net, q) && Shape(net.Size(), l0)
    requires l0.prev[q.start] == -1 && l0.risks[q.start] == 0
    requires forall v :: 0 <= v < net.Size() && l0.visit[v] ==> v == q.start
    ensures l == RelaxedUpTo(net, q, l0, q.start, |net.routes[q.start]|)
  {
    l := l0;
    var i := 0;
    while i < |net.routes[q.start]|
      invariant 0 <= i <= |net.routes[q.start]|
      invariant l == RelaxedUpTo(net, q, l0, q.start, i)
      invariant l.prev[q.start] == -1 && l.risks[q.start] == 0
    {
      l := RelaxStartLeg(net, q, l, i);
      i := i + 1;
    }
  }

  /** One leg out of a later city, reached at `prevTime`. */
  method RelaxLeg(net: Network, q: Query, l0: Labels, curCity: int, prevTime: int, i: int) returns (l: Labels)
    requires ValidQuery(net, q) && Shape(net.Size(), l0) && net.HasRoute(curCity, i) && curCity != q.start
    requires prevTime == Label(q, l0, curCity)
    ensures l == Relaxed(net, q, l0, curCity, i)
  {
    l := l0;
    var route := net.routes[curCity][i];
    if l.visit[route.destCity] {
      return;
    }
    var realStartTime := NextDeparture(route.startTime, prevTime);
    var waitTime := realStartTime - prevTime;
    if waitTime + prevTime + route.costTime - q.startT > q.limit {
      return;
    }
    var risk := LegRisk(net, false, curCity, i, waitTime);
    if risk < l.risks[route.destCity] {
      l := Record(l, curCity, route.destCity, i, risk, prevTime + waitTime + route.costTime);
    }
  }

  method RelaxFrom(net: Network, q: Query, l0: Labels, curCity: int) returns (l: Labels)
    requires ValidQuery(net, q) && Shape(net.Size(), l0)
    requires 0 <= curCity < net.Size() && curCity != q.start && l0.visit[curCity] && l0.prev[curCity] != -1
    ensures l == RelaxedUpTo(net, q, l0, curCity, |net.routes[curCity]|)
  {
    l := l0;
    var prevTime := l.spend[l.prev[curCity]][curCity];
    var i := 0;
    while i < |net.routes[curCity]|
      invariant 0 <= i <= |net.routes[curCity]|
      invariant l == RelaxedUpTo(net, q, l0, curCity, i)
      invariant Label(q, l, curCity) == prevTime
    {
      l := RelaxLeg(net, q, l, curCity, prevTime, i);
      i := i + 1;
    }
  }

  /** The choice of the next city: the first unvisited city of least risk.  `cur`, which has
      been visited, comes back exactly when no unvisited city has a risk below INF. */
  method SelectNext(visit: seq<bool>, risks: seq<int>, cur: int) returns (next: int)
    requires |visit| == |risks| && 0 <= cur < |visit| && visit[cur]
    ensures 0 <= next < |visit|
    ensures next == cur <==> forall j :: 0 <= j < |visit| && !visit[j] ==> risks[j] >= INF
    ensures next != cur ==> !visit[next] && risks[next] < INF
    ensures next != cur ==> forall j :: 0 <= j < |visit| && !visit[j] ==>
              risks[next] <= risks[j] && (j < next ==> risks[next] < risks[j])
  {
    var minn := INF;
    next := cur;
    var j := 0;
    while j < |visit|
      invariant 0 <= j <= |visit| && 0 <= next < |visit|
      invariant next == cur ==> minn == INF
      invariant next != cur ==> !visit[next] && risks[next] == minn < INF && next < j
      invariant forall k :: 0 <= k < j && !visit[k] ==>
                  minn <= risks[k] && (k < next && next != cur ==> minn < risks[k])
    {
      if !visit[j] && risks[j] < minn {
        minn := risks[j];
        next := j;
      }
      j := j + 1;
    }
  }

  /** What the search leaves behind: a tree grown by cut-minimal choices in which `dest` is the
      last city visited, or a tree whose frontier is empty. */
  ghost predicate SearchDone(net: Network, q: Query, l: Labels, order: seq<int>)
    requires ValidQuery(net, q)
  {
    && Tree(net, q, l, order)
    && (l.visit[q.dest] ==> order[|order| - 1] == q.dest)
    && (!l.visit[q.dest] ==> Exhausted(net, q, l))
  }

  /** No leg in time, of risk below INF, leads out of the visited cities. */
  ghost predicate Exhausted(net: Network, q: Query, l: Labels)
    requires net.Valid() && Shape(net.Size(), l)
  {
    forall u, i :: net.HasRoute(u, i) && l.visit[u] && !l.visit[net.Target(u, i)] && LabelInTime(net, q, l, u, i)
      ==> LabelWeight(net, q, l, u, i) >= INF
  }

  lemma {:induction false} EmptyFrontier(net: Network, q: Query, l: Labels, cur: int)
    requires net.Valid() && Shape(net.Size(), l) && 0 <= cur < net.Size()
    requires Frontier(net, q, l, cur, |net.routes[cur]|)
    requires forall j :: 0 <= j < net.Size() && !l.visit[j] ==> l.risks[j] >= INF
    ensures Exhausted(net, q, l)
  {
    forall u, i | net.HasRoute(u, i) && l.visit[u] && !l.visit[net.Target(u, i)] && LabelInTime(net, q, l, u, i)
      ensures LabelWeight(net, q, l, u, i) >= INF
    {
      assert Scanned(l, cur, |net.routes[cur]|, u, i) && Covered(net, q, l, u, i);
    }
  }

  /** The search.  The loop counter bounds the number of rounds by the number of cities; that it
      never cuts the search short is part of the contract. */
  method Search(net: Network, q: Query) returns (l: Labels, ghost order: seq<int>)
    requires ValidQuery(net, q)
    ensures SearchDone(net, q, l, order)
  {
    var cityNum := net.Size();
    InitialIsTree(net, q);
    order := [q.start];
    l := Initial(cityNum, q);
    RelaxedUpToKeepsTree(net, q, l, order, q.start, |net.routes[q.start]|);
    RelaxedUpToKeepsFrontier(net, q, l, q.start, |net.routes[q.start]|);
    l := RelaxStart(net, q, l);
    var curCity := q.start;
    var i := 0;
    while i < cityNum
      invariant 0 <= i && |order| == i + 1
      invariant Tree(net, q, l, order) && curCity in order && !l.visit[q.dest]
      invariant Frontier(net, q, l, curCity, |net.routes[curCity]|)
    {
      var temp := curCity;
      curCity := SelectNext(l.visit, l.risks, curCity);
      if curCity == temp {
        EmptyFrontier(net, q, l, curCity);
        return;
      }
      VisitKeepsTree(net, q, l, order, temp, curCity);
      VisitKeepsFrontier(net, q, l, temp, curCity);
      l := Visited(l, curCity);
      order := order + [curCity];
      if curCity == q.dest {
        return;
      }
      assert TreeNode(net, q, l, order, |order| - 1);
      RelaxedUpToKeepsTree(net, q, l, order, curCity, |net.routes[curCity]|);
      RelaxedUpToKeepsFrontier(net, q, l, curCity, |net.routes[curCity]|);
      l := RelaxFrom(net, q, l, curCity);
      i := i + 1;
    }
    OrderIsBounded(cityNum, order);
    assert false;
  }
}
