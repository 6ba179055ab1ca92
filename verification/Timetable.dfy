/** The timetable: cities, routes, waiting for a departure and the risk of one leg.
    Times are minutes; a route departs every day at the same minute of the day. */
module Timetable {

  const DAY: int := 24 * 60
  const INF: int := 0x3F3F3F3F

  datatype Route = Route(vehicleType: int, destCity: int, startTime: int, costTime: int, serialNum: int)

  datatype Network = Network(factor: seq<real>, routes: seq<seq<Route>>) {
    function Size(): nat { |factor| }

    predicate HasRoute(u: int, i: int) { 0 <= u < |routes| && 0 <= i < |routes[u]| }

    ghost predicate Valid() {
      && |routes| == Size()
      && (forall u :: 0 <= u < Size() ==> factor[u] >= 0.0)
      && (forall u, i :: HasRoute(u, i) ==> ValidRoute(routes[u][i]))
    }

    predicate ValidRoute(r: Route) {
      && 0 <= r.destCity < Size()
      && 0 <= r.startTime < DAY
      && 0 <= r.costTime
      && 0 <= r.vehicleType <= 2
    }

    function Target(u: int, i: int): int
      requires HasRoute(u, i)
    {
      routes[u][i].destCity
    }
  }

  /** Risk per hour of plane, train and car. */
  function VehicleRisk(vehicleType: int): int
    requires 0 <= vehicleType <= 2
  {
    if vehicleType == 0 then 9 else if vehicleType == 1 then 5 else 2
  }

  /** The departure a traveller standing at the station at `now` takes. */
  function Departure(startTime: int, now: int): int {
    if startTime >= now then startTime else now + (startTime - now) % DAY
  }

  predicate SameMinuteOfDay(a: int, b: int) { (a - b) % DAY == 0 }

  /** `Departure` is the earliest moment, not before `now`, at which the route runs. */
  lemma {:induction false} DepartureIsEarliest(startTime: int, now: int, other: int)
    requires 0 <= startTime < DAY && 0 <= now
    ensures now <= Departure(startTime, now) < now + DAY
    ensures SameMinuteOfDay(Departure(startTime, now), startTime)
    ensures now <= other && SameMinuteOfDay(other, startTime) ==> Departure(startTime, now) <= other
  {
  }

  /** The waiting loop: whole days are added until the departure is not in the past. */
  method NextDeparture(startTime: int, prevTime: int) returns (realStartTime: int)
    ensures realStartTime == Departure(startTime, prevTime)
  {
    realStartTime := startTime;
    while realStartTime < prevTime
      invariant SameMinuteOfDay(realStartTime, startTime)
      invariant realStartTime == startTime || (startTime < prevTime && realStartTime < prevTime + DAY)
    {
      realStartTime := realStartTime + DAY;
    }
    if startTime < prevTime {
      assert SameMinuteOfDay(realStartTime, startTime) && prevTime <= realStartTime < prevTime + DAY;
      assert (realStartTime - Departure(startTime, prevTime)) % DAY == 0;
    }
  }

  /** Remainder as C++ computes it: the sign follows the dividend. */
  function CRemainder(a: int, b: int): int
    requires b > 0
  {
    if a >= 0 then a % b else -((-a) % b)
  }

  /** The README prints a closed formula instead of the loop.  The two agree exactly when the
      traveller arrives at most one day after the printed departure or at that very minute. */
  lemma {:induction false} ReadmeWaitFormula(startTime: int, prevTime: int)
    requires 0 <= startTime < DAY && 0 <= prevTime
    ensures CRemainder(startTime + DAY - prevTime, DAY) == Departure(startTime, prevTime) - prevTime
       <==> (prevTime <= startTime + DAY || SameMinuteOfDay(prevTime, startTime))
  {
    var a := startTime + DAY - prevTime;
    if a < 0 {
      assert Departure(startTime, prevTime) - prevTime == (startTime - prevTime) % DAY;
      assert (-a) % DAY == (prevTime - startTime) % DAY;
    } else {
      assert a % DAY == (startTime - prevTime) % DAY;
    }
  }

  /** Risk of leg `i` out of city `u` after waiting `wait` minutes, truncated to an integer.
      Out of the start city the ride is charged per whole hour (integer division), elsewhere
      per exact fraction of an hour. */
  function LegRisk(net: Network, fromStart: bool, u: int, i: int, wait: int): int
    requires net.Valid() && net.HasRoute(u, i)
  {
    var r := net.routes[u][i];
    var stay := (wait as real) / 60.0 * net.factor[u];
    var ride :=
      if fromStart then (r.costTime / 60 * VehicleRisk(r.vehicleType)) as real
      else (r.costTime as real) / 60.0 * (VehicleRisk(r.vehicleType) as real);
    (stay + ride).Floor
  }

  lemma {:induction false} NonNegativeProduct(a: real, b: real)
    requires a >= 0.0 && b >= 0.0
    ensures a * b >= 0.0
  {
  }

  lemma {:induction false} LegRiskNonNegative(net: Network, fromStart: bool, u: int, i: int, wait: int)
    requires net.Valid() && net.HasRoute(u, i) && wait >= 0
    ensures LegRisk(net, fromStart, u, i, wait) >= 0
  {
    var r := net.routes[u][i];
    NonNegativeProduct((wait as real) / 60.0, net.factor[u]);
    NonNegativeProduct((r.costTime as real) / 60.0, VehicleRisk(r.vehicleType) as real);
    assert r.costTime / 60 * VehicleRisk(r.vehicleType) >= 0;
  }

  /** A journey request; `startT` is the minute of departure, `limit` the longest journey allowed. */
  datatype Query = Query(start: int, dest: int, startT: int, limit: int)

  ghost predicate ValidQuery(net: Network, q: Query) {
    && net.Valid()
    && 0 <= q.start < net.Size() && 0 <= q.dest < net.Size() && q.start != q.dest
    && 0 <= q.startT
  }

  /** When leg `i` out of `u` ends for a traveller who reaches `u` at `t`. */
  function ArriveAt(net: Network, u: int, i: int, t: int): int
    requires net.HasRoute(u, i)
  {
    Departure(net.routes[u][i].startTime, t) + net.routes[u][i].costTime
  }

  function WeightAt(net: Network, q: Query, u: int, i: int, t: int): int
    requires net.Valid() && net.HasRoute(u, i)
  {
    LegRisk(net, u == q.start, u, i, Departure(net.routes[u][i].startTime, t) - t)
  }

  predicate InTime(net: Network, q: Query, u: int, i: int, t: int)
    requires net.HasRoute(u, i)
  {
    ArriveAt(net, u, i, t) - q.startT <= q.limit
  }
}
