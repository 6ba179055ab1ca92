/** Loading the schedule: the rows of the table become the routes out of their cities. */
module Schedule {
  import opened Timetable

  /** A row of the table: a ride and the times of day, or hours past midnight, of its two ends. */
  datatype Row = Row(
    number: int, from: int, to: int, startH: int, startM: int, arriveH: int, arriveM: int, vehicle: int)

  predicate ValidRow(r: Row, cityNum: nat) {
    && 0 <= r.from < cityNum && 0 <= r.to < cityNum && 0 <= r.vehicle <= 2
    && 0 <= r.startH < 24 && 0 <= r.startM < 60
  }

  function Start(r: Row): int { r.startH * 60 + r.startM }

  function Arrival(r: Row): int { r.arriveH * 60 + r.arriveM }

  /** The constructor of a route takes the two ends and keeps the start and the difference. */
  function RouteOf(r: Row): Route {
    Route(r.vehicle, r.to, Start(r), Arrival(r) - Start(r), r.number)
  }

  /** The routes out of city `u`, in the order of the table. */
  function RoutesFrom(rows: seq<Row>, u: int): seq<Route> {
    if rows == [] then [] else
      var before := RoutesFrom(rows[..|rows| - 1], u);
      var last := rows[|rows| - 1];
      if last.from == u then before + [RouteOf(last)] else before
  }

  method LoadData(cityNum: nat, rows: seq<Row>) returns (routeMap: seq<seq<Route>>)
    requires forall i :: 0 <= i < |rows| ==> ValidRow(rows[i], cityNum)
    ensures |routeMap| == cityNum
    ensures forall u :: 0 <= u < cityNum ==> routeMap[u] == RoutesFrom(rows, u)
  {
    routeMap := seq(cityNum, _ => []);
    var i := 0;
    while i < |rows|
      invariant 0 <= i <= |rows| && |routeMap| == cityNum
      invariant forall u :: 0 <= u < cityNum ==> routeMap[u] == RoutesFrom(rows[..i], u)
    {
      var r := rows[i];
      assert rows[..i + 1][..i] == rows[..i] && rows[..i + 1][i] == r;
      routeMap := routeMap[r.from := routeMap[r.from] + [RouteOf(r)]];
      i := i + 1;
    }
    assert rows[..|rows|] == rows;
  }

  /** The earlier rows out of the same city. */
  function Earlier(rows: seq<Row>, k: nat, u: int): set<int>
    requires k <= |rows|
  {
    set j | 0 <= j < k && rows[j].from == u
  }

  lemma {:induction false} RoutesAreCounted(rows: seq<Row>, k: nat, u: int)
    requires k <= |rows|
    ensures |RoutesFrom(rows[..k], u)| == |Earlier(rows, k, u)|
    ensures RoutesFrom(rows[..k], u) <= RoutesFrom(rows, u)
    decreases k, |rows|
  {
    if k > 0 {
      RoutesAreCounted(rows, k - 1, u);
      assert rows[..k][..k - 1] == rows[..k - 1];
      assert Earlier(rows, k, u)
        == Earlier(rows, k - 1, u) + if rows[k - 1].from == u then {k - 1} else {};
    } else {
      assert Earlier(rows, 0, u) == {};
    }
    if k < |rows| {
      var init := rows[..|rows| - 1];
      assert init[..k] == rows[..k];
      RoutesAreCounted(init, k, u);
    } else {
      assert rows[..k] == rows;
    }
  }

  /** Each row is found among the routes of its city, behind those of as many rows as come before
      it in the table, with its times in minutes. */
  lemma {:induction false} RowIsFound(rows: seq<Row>, k: nat)
    requires k < |rows|
    ensures var r, n := rows[k], |set j | 0 <= j < k && rows[j].from == rows[k].from|;
      && n < |RoutesFrom(rows, r.from)|
      && var route := RoutesFrom(rows, r.from)[n];
      && route.destCity == r.to && route.serialNum == r.number && route.vehicleType == r.vehicle
      && route.startTime == 60 * r.startH + r.startM
      && route.startTime + route.costTime == 60 * r.arriveH + r.arriveM
  {
    var u := rows[k].from;
    RoutesAreCounted(rows, k, u);
    RoutesAreCounted(rows, k + 1, u);
    assert Earlier(rows, k, u) == set j | 0 <= j < k && rows[j].from == u;
    assert rows[..k + 1][..k] == rows[..k];
    assert RoutesFrom(rows[..k + 1], u) == RoutesFrom(rows[..k], u) + [RouteOf(rows[k])];
  }

  function CountUpTo(rows: seq<Row>, n: nat): nat {
    if n == 0 then 0 else CountUpTo(rows, n - 1) + |RoutesFrom(rows, n - 1)|
  }

  lemma {:induction false} LastRowCounts(rows: seq<Row>, n: nat)
    requires rows != [] && rows[|rows| - 1].from >= 0
    ensures CountUpTo(rows, n) == CountUpTo(rows[..|rows| - 1], n) + if rows[|rows| - 1].from < n then 1 else 0
  {
    if n > 0 { LastRowCounts(rows, n - 1); }
  }

  /** No row is lost or doubled: the routes of all cities are as many as the rows, and each is the
      route of a row out of that city. */
  lemma {:induction false} EveryRowIsARoute(rows: seq<Row>, cityNum: nat)
    requires forall i :: 0 <= i < |rows| ==> ValidRow(rows[i], cityNum)
    ensures CountUpTo(rows, cityNum) == |rows|
    ensures forall i :: 0 <= i < |rows| ==> RouteOf(rows[i]) in RoutesFrom(rows, rows[i].from)
  {
    if rows == [] {
      EmptyCount(cityNum);
    } else {
      var last := rows[|rows| - 1];
      assert ValidRow(last, cityNum);
      EveryRowIsARoute(rows[..|rows| - 1], cityNum);
      LastRowCounts(rows, cityNum);
      forall i | 0 <= i < |rows| - 1 ensures RouteOf(rows[i]) in RoutesFrom(rows, rows[i].from) {
        assert rows[..|rows| - 1][i] == rows[i];
      }
    }
  }

  lemma {:induction false} EmptyCount(n: nat)
    ensures CountUpTo([], n) == 0
  {
    if n > 0 { EmptyCount(n - 1); }
  }

  /** What is loaded is a timetable the planner can work on if and only if no row arrives before
      it starts: a ride past midnight has to give its arrival in hours beyond 24. */
  lemma {:induction false} LoadedIsValidIff(rows: seq<Row>, factor: seq<real>, routeMap: seq<seq<Route>>)
    requires forall i :: 0 <= i < |rows| ==> ValidRow(rows[i], |factor|)
    requires forall u :: 0 <= u < |factor| ==> factor[u] >= 0.0
    requires |routeMap| == |factor| && forall u :: 0 <= u < |factor| ==> routeMap[u] == RoutesFrom(rows, u)
    ensures Network(factor, routeMap).Valid() <==> forall i :: 0 <= i < |rows| ==> Arrival(rows[i]) >= Start(rows[i])
  {
    var net := Network(factor, routeMap);
    if forall i :: 0 <= i < |rows| ==> Arrival(rows[i]) >= Start(rows[i]) {
      forall u, i | net.HasRoute(u, i) ensures net.ValidRoute(routeMap[u][i]) {
        RoutesAreOfRows(rows, u, i);
      }
    } else {
      var k :| 0 <= k < |rows| && Arrival(rows[k]) < Start(rows[k]);
      EveryRowIsARoute(rows, |factor|);
      var u := rows[k].from;
      assert ValidRow(rows[k], |factor|);
      var i :| 0 <= i < |routeMap[u]| && routeMap[u][i] == RouteOf(rows[k]);
      assert net.HasRoute(u, i) && !net.ValidRoute(routeMap[u][i]);
    }
  }

  /** A train from 23:00 to 01:00 with the arrival given as one o'clock gets a ride of minus
      twenty-two hours, and the timetable is no longer valid. */
  lemma {:induction false} OvernightRowIsInvalid()
    ensures var r := Row(1, 0, 0, 23, 0, 1, 0, 1);
      && ValidRow(r, 1) && RouteOf(r).costTime == -1320
      && RoutesFrom([r], 0) == [RouteOf(r)] && !Network([0.0], [[RouteOf(r)]]).Valid()
  {
    var r := Row(1, 0, 0, 23, 0, 1, 0, 1);
    assert [r][..0] == [] && RoutesFrom([r][..0], 0) == [];
    var net := Network([0.0], [[RouteOf(r)]]);
    assert net.HasRoute(0, 0) && !net.ValidRoute(net.routes[0][0]);
  }

  lemma {:induction false} RoutesAreOfRows(rows: seq<Row>, u: int, i: nat)
    requires i < |RoutesFrom(rows, u)|
    ensures exists k :: 0 <= k < |rows| && rows[k].from == u && RoutesFrom(rows, u)[i] == RouteOf(rows[k])
  {
    var init := rows[..|rows| - 1];
    if i < |RoutesFrom(init, u)| {
      RoutesAreOfRows(init, u, i);
      var k :| 0 <= k < |init| && init[k].from == u && RoutesFrom(init, u)[i] == RouteOf(init[k]);
      assert rows[k] == init[k];
    } else {
      assert rows[|rows| - 1].from == u;
    }
  }
}
