/** What the risks and times of the search are in minutes, factors and rates per hour. */
module RiskValues {
  import opened Timetable
  import opened SearchLabels
  import opened RouteSearch
  import opened Optimality

  /** `risk` is the number of whole units in `wait` minutes at `factor` an hour and a ride of
      `cost` minutes by plane, train or car: 9, 5 and 2 an hour, out of the start for full hours only. */
  ghost predicate IsRisk(risk: int, fromStart: bool, vehicle: int, wait: int, factor: real, cost: int) {
    var rate := if vehicle == 0 then 9.0 else if vehicle == 1 then 5.0 else 2.0;
    var charged := if fromStart then cost - cost % 60 else cost;
    var sixty := (wait as real) * factor + (charged as real) * rate;
    60.0 * (risk as real) <= sixty < 60.0 * (risk as real) + 60.0
  }

  lemma {:induction false} FullHours(cost: int, rate: int)
    ensures 60 * (cost / 60 * rate) == (cost - cost % 60) * rate
  {
    assert cost - cost % 60 == 60 * (cost / 60);
  }

  lemma {:induction false} Sixty(wait: real, factor: real, cost: real, rate: real)
    ensures 60.0 * (wait / 60.0 * factor + cost / 60.0 * rate) == wait * factor + cost * rate
  {
    assert 60.0 * (wait / 60.0 * factor) == wait * factor;
    assert 60.0 * (cost / 60.0 * rate) == cost * rate;
  }

  lemma {:induction false} LegRiskIs(net: Network, fromStart: bool, u: int, i: int, wait: int)
    requires net.Valid() && net.HasRoute(u, i)
    ensures var r := net.routes[u][i];
      IsRisk(LegRisk(net, fromStart, u, i, wait), fromStart, r.vehicleType, wait, net.factor[u], r.costTime)
  {
    var r := net.routes[u][i];
    var rate := VehicleRisk(r.vehicleType);
    var charged := if fromStart then r.costTime - r.costTime % 60 else r.costTime;
    FullHours(r.costTime, rate);
    Sixty(wait as real, net.factor[u], charged as real, rate as real);
    assert (charged as real) / 60.0 * (rate as real) ==
      if fromStart then (r.costTime / 60 * rate) as real else (r.costTime as real) / 60.0 * (rate as real);
  }

  lemma {:induction false} RisksAreUnique(a: int, b: int, fromStart: bool, vehicle: int, wait: int, factor: real,
                                          cost: int)
    requires IsRisk(a, fromStart, vehicle, wait, factor, cost) && IsRisk(b, fromStart, vehicle, wait, factor, cost)
    ensures a == b
  {
  }

  /** The wait until route `r` runs again, for a traveller who is there at `t`: under a day, and it
      ends at the printed minute of some day. */
  predicate IsWait(r: Route, t: int, wait: int) {
    0 <= wait < 1440 && (t + wait - r.startTime) % 1440 == 0
  }

  lemma {:induction false} WaitsAreUnique(r: Route, t: int, wait: int)
    requires 0 <= r.startTime < 1440 && t >= 0 && IsWait(r, t, wait)
    ensures Departure(r.startTime, t) == t + wait
  {
    DepartureIsEarliest(r.startTime, t, t + wait);
    assert (Departure(r.startTime, t) - (t + wait)) % 1440 == 0;
  }

  lemma {:induction false} DepartureIsWait(r: Route, t: int)
    requires 0 <= r.startTime < 1440 && t >= 0
    ensures IsWait(r, t, Departure(r.startTime, t) - t)
  {
    DepartureIsEarliest(r.startTime, t, 0);
  }

  lemma {:induction false} LabelsAreTimes(net: Network, q: Query, l: Labels, order: seq<int>, k: nat)
    requires ValidQuery(net, q) && Tree(net, q, l, order) && k < |order|
    ensures Label(q, l, order[k]) >= 0
    decreases k
  {
    if k > 0 {
      assert TreeNode(net, q, l, order, k);
      var u := l.prev[order[k]];
      var j :| 0 <= j < k && order[j] == u;
      LabelsAreTimes(net, q, l, order, j);
      DepartureIsEarliest(net.routes[u][l.route[u][order[k]]].startTime, Label(q, l, u), 0);
    }
  }

  /** What the search records for a visited city: a route into it out of a visited one, taken at the
      first occasion, within the limit, with its risk. */
  lemma {:induction false} VisitedByRoute(net: Network, q: Query, l: Labels, order: seq<int>, k: nat)
    requires ValidQuery(net, q) && SearchDone(net, q, l, order) && 1 <= k < |order|
    ensures var v := order[k];
      var u := l.prev[v];
      && u in order[..k] && net.HasRoute(u, l.route[u][v])
      && var r := net.routes[u][l.route[u][v]];
         var wait := l.spend[u][v] - r.costTime - Label(q, l, u);
         && r.destCity == v && IsWait(r, Label(q, l, u), wait)
         && l.spend[u][v] - q.startT <= q.limit
         && l.risks[v] < 0x3F3F3F3F
         && IsRisk(l.risks[v], u == q.start, r.vehicleType, wait, net.factor[u], r.costTime)
  {
    hide LegRisk, IsRisk, Departure, IsWait;
    assert TreeNode(net, q, l, order, k);
    var v := order[k];
    var u := l.prev[v];
    var i := l.route[u][v];
    var t := Label(q, l, u);
    var j :| 0 <= j < k && order[j] == u;
    LabelsAreTimes(net, q, l, order, j);
    DepartureIsWait(net.routes[u][i], t);
    LegRiskIs(net, u == q.start, u, i, Departure(net.routes[u][i].startTime, t) - t);
  }

  /** A leg that leaves the first `k` visited cities, taken at the first occasion, within the limit. */
  ghost predicate LeavesInTime(net: Network, q: Query, l: Labels, order: seq<int>, k: nat, u: int, i: int, wait: int)
    requires ValidQuery(net, q) && Shape(net.Size(), l) && k <= |order|
  {
    && u in order[..k] && net.HasRoute(u, i) && net.Target(u, i) !in order[..k]
    && IsWait(net.routes[u][i], Label(q, l, u), wait)
    && Label(q, l, u) + wait + net.routes[u][i].costTime - q.startT <= q.limit
  }

  lemma {:induction false} WeightOfLeg(net: Network, q: Query, l: Labels, order: seq<int>, k: nat, u: int, i: int,
                                       wait: int, risk: int)
    requires ValidQuery(net, q) && Tree(net, q, l, order) && k <= |order|
    requires LeavesInTime(net, q, l, order, k, u, i, wait)
    requires var r := net.routes[u][i]; IsRisk(risk, u == q.start, r.vehicleType, wait, net.factor[u], r.costTime)
    ensures LabelInTime(net, q, l, u, i) && LabelWeight(net, q, l, u, i) == risk
  {
    hide LegRisk, IsRisk, Departure, IsWait;
    var r, t := net.routes[u][i], Label(q, l, u);
    var j :| 0 <= j < k && order[j] == u;
    LabelsAreTimes(net, q, l, order, j);
    WaitsAreUnique(r, t, wait);
    LegRiskIs(net, u == q.start, u, i, wait);
    RisksAreUnique(risk, LegRisk(net, u == q.start, u, i, wait), u == q.start, r.vehicleType, wait, net.factor[u],
                   r.costTime);
  }

  /** Each choice has the least risk of all legs that leave the cities visited before it. */
  lemma {:induction false} ChoiceIsLeast(net: Network, q: Query, l: Labels, order: seq<int>, k: nat, u: int, i: int,
                                         wait: int, risk: int)
    requires ValidQuery(net, q) && SearchDone(net, q, l, order) && 1 <= k < |order|
    requires LeavesInTime(net, q, l, order, k, u, i, wait)
    requires var r := net.routes[u][i]; IsRisk(risk, u == q.start, r.vehicleType, wait, net.factor[u], r.costTime)
    ensures l.risks[order[k]] <= risk
  {
    hide IsRisk, IsWait, LegRisk;
    WeightOfLeg(net, q, l, order, k, u, i, wait, risk);
    assert TreeNode(net, q, l, order, k);
  }

  /** When the search gives up, no leg of a risk below 0x3F3F3F3F leaves the visited cities in time. */
  lemma {:induction false} NothingIsLeft(net: Network, q: Query, l: Labels, order: seq<int>, u: int, i: int, wait: int,
                                         risk: int)
    requires ValidQuery(net, q) && SearchDone(net, q, l, order) && !l.visit[q.dest]
    requires LeavesInTime(net, q, l, order, |order|, u, i, wait)
    requires var r := net.routes[u][i]; IsRisk(risk, u == q.start, r.vehicleType, wait, net.factor[u], r.costTime)
    ensures risk >= 0x3F3F3F3F
  {
    hide IsRisk, IsWait, LegRisk;
    assert order[..|order|] == order;
    WeightOfLeg(net, q, l, order, |order|, u, i, wait, risk);
  }

  /** A leg into an unvisited city, in time, is recorded in all four vectors if its risk is smaller
      than the one recorded, and not at all if it is equal or greater: the first of equals stays. */
  lemma {:induction false} OnlySmallerIsRecorded(net: Network, q: Query, l: Labels, u: int, i: int,
                                                    wait: int, risk: int)
    requires ValidQuery(net, q) && Shape(net.Size(), l) && net.HasRoute(u, i) && !l.visit[net.Target(u, i)]
    requires Label(q, l, u) >= 0 && IsWait(net.routes[u][i], Label(q, l, u), wait)
    requires var r := net.routes[u][i]; IsRisk(risk, u == q.start, r.vehicleType, wait, net.factor[u], r.costTime)
    ensures var r, l' := net.routes[u][i], Relaxed(net, q, l, u, i);
      var arrival := Label(q, l, u) + wait + r.costTime;
      if arrival - q.startT <= q.limit && risk < l.risks[r.destCity] then
        && l'.risks == l.risks[r.destCity := risk] && l'.prev == l.prev[r.destCity := u]
        && l'.spend[u][r.destCity] == arrival && l'.route[u][r.destCity] == i && l'.visit == l.visit
      else l' == l
  {
    hide LegRisk, IsRisk, Departure, IsWait;
    var r, t := net.routes[u][i], Label(q, l, u);
    WaitsAreUnique(r, t, wait);
    LegRiskIs(net, u == q.start, u, i, wait);
    RisksAreUnique(risk, LegRisk(net, u == q.start, u, i, wait), u == q.start, r.vehicleType, wait, net.factor[u],
                   r.costTime);
  }

  // ---------------------------------------------------------------- an example

  /** A dangerous city and a safe one: a car in ten hours, and one at once that takes two. */
  const WARD := Network([6.0, 0.0], [[Route(2, 1, 600, 60, 1), Route(2, 1, 0, 120, 2)], []])

  lemma {:induction false} WardIsValid(limit: int)
    ensures ValidQuery(WARD, Query(0, 1, 0, limit))
    ensures IsWait(WARD.routes[0][1], 0, 0) && IsRisk(4, true, 2, 0, 6.0, 120)
    ensures IsWait(WARD.routes[0][0], 0, 600) && IsRisk(62, true, 2, 600, 6.0, 60)
  {
    assert forall u, i :: WARD.HasRoute(u, i) ==> WARD.ValidRoute(WARD.routes[u][i]);
  }

  /** Waiting counts: every search takes the second car, at risk 4 instead of 62, exactly when the
      limit allows it. */
  lemma {:induction false} WaitingCounts(limit: int, l: Labels, order: seq<int>)
    requires ValidQuery(WARD, Query(0, 1, 0, limit)) && SearchDone(WARD, Query(0, 1, 0, limit), l, order)
    ensures l.visit[1] <==> limit >= 120
    ensures l.visit[1] ==> l.route[0][1] == 1 && l.spend[0][1] == 120 && l.risks[1] == 4
  {
    hide IsRisk, IsWait;
    var q := Query(0, 1, 0, limit);
    WardIsValid(limit);
    assert order[0] == 0 && Label(q, l, 0) == 0;
    if |order| == 1 {
      assert !l.visit[1];
      if limit >= 120 { NothingIsLeft(WARD, q, l, order, 0, 1, 0, 4); }
    } else {
      assert order[..1] == [0] && order[1] in order && order[1] == 1;
      SecondCar(l, order, limit);
    }
  }

  lemma {:induction false} SecondCar(l: Labels, order: seq<int>, limit: int)
    requires ValidQuery(WARD, Query(0, 1, 0, limit)) && SearchDone(WARD, Query(0, 1, 0, limit), l, order)
    requires |order| > 1 && order[0] == 0 && order[1] == 1 && order[..1] == [0] && l.prev[0] == -1
    ensures limit >= 120 && l.route[0][1] == 1 && l.spend[0][1] == 120 && l.risks[1] == 4
  {
    hide IsRisk, IsWait, Departure, TreeNode, Exhausted;
    var q := Query(0, 1, 0, limit);
    WardIsValid(limit);
    VisitedByRoute(WARD, q, l, order, 1);
    var i := l.route[0][1];
    var r := WARD.routes[0][i];
    var wait := l.spend[0][1] - r.costTime;
    WaitsAreUnique(r, 0, wait);
    WaitsAreUnique(r, 0, if i == 0 then 600 else 0);
    RisksAreUnique(l.risks[1], if i == 0 then 62 else 4, true, 2, wait, 6.0, r.costTime);
    ChoiceIsLeast(WARD, q, l, order, 1, 0, 1, 0, 4);
  }
}
