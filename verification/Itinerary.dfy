/** From labels to an itinerary: the path back along `prev`, the tasks it becomes and the report. */
module Itinerary {
  import opened Timetable
  import opened SearchLabels
  import opened Optimality
  import opened Traveller

  /** There is a hop to take. */
  predicate Next(net: Network, hops: seq<Hop>) {
    hops != [] && net.HasRoute(hops[0].city, hops[0].index)
  }

  /** The arrival of a traveller who sets out at `t` and always takes the next departure. */
  ghost function Ride(net: Network, hops: seq<Hop>, t: int): int
    decreases hops
  {
    if !Next(net, hops) then t else Ride(net, hops[1..], ArriveAt(net, hops[0].city, hops[0].index, t))
  }

  /** Waiting for the departure, riding, arriving. */
  function LegTasks(net: Network, h: Hop, t: int): seq<Task>
    requires net.HasRoute(h.city, h.index)
  {
    var r := net.routes[h.city][h.index];
    var departure := Departure(r.startTime, t);
    var arrival := departure + r.costTime;
    [Task(t, departure, Waiting, r.serialNum, r.vehicleType, h.city, h.city),
     Task(departure, arrival, Traveling, r.serialNum, r.vehicleType, h.city, r.destCity),
     Task(arrival, arrival, Arrive, 0, 0, r.destCity, r.destCity)]
  }

  ghost function TasksOf(net: Network, hops: seq<Hop>, t: int): seq<Task>
    decreases hops
  {
    if !Next(net, hops) then [] else
      LegTasks(net, hops[0], t) + TasksOf(net, hops[1..], ArriveAt(net, hops[0].city, hops[0].index, t))
  }

  /** The three tasks of one leg for a traveller who is in the hop's city at `t`: waiting there for the
      first run of the route from `t` on, riding for as long as the route takes, and arriving. */
  ghost predicate LegIsLived(net: Network, h: Hop, t: int, wait: Task, ride: Task, arrive: Task) {
    && net.HasRoute(h.city, h.index)
    && var r := net.routes[h.city][h.index];
       && wait.behavior == Waiting && ride.behavior == Traveling && arrive.behavior == Arrive
       && wait.startTime == t && wait.endTime == ride.startTime
       && t <= ride.startTime < t + 1440 && (ride.startTime - r.startTime) % 1440 == 0
       && ride.endTime == ride.startTime + r.costTime
       && arrive.startTime == arrive.endTime == ride.endTime
       && wait.fromCity == wait.destCity == ride.fromCity == h.city
       && ride.destCity == arrive.fromCity == arrive.destCity == r.destCity
       && wait.tacNumber == ride.tacNumber == r.serialNum && arrive.tacNumber == 0
       && wait.vehicleType == ride.vehicleType == r.vehicleType && arrive.vehicleType == 0
  }

  /** The tasks come in threes, one three for each hop, each beginning where the one before ends. */
  ghost predicate Lived(net: Network, hops: seq<Hop>, t: int, tasks: seq<Task>) {
    && |tasks| == 3 * |hops|
    && forall k :: 0 <= k < |hops| ==>
         LegIsLived(net, hops[k], if k == 0 then t else tasks[3 * k - 1].endTime,
                    tasks[3 * k], tasks[3 * k + 1], tasks[3 * k + 2])
  }

  lemma {:induction false} TasksAreLived(net: Network, a: int, hops: seq<Hop>, b: int, t: int)
    requires net.Valid() && Trail(net, a, hops, b) && t >= 0
    ensures Lived(net, hops, t, TasksOf(net, hops, t))
    decreases hops
  {
    if hops != [] {
      var h := hops[0];
      var r := net.routes[a][h.index];
      var arrival := ArriveAt(net, a, h.index, t);
      DepartureIsEarliest(r.startTime, t, 0);
      TasksAreLived(net, r.destCity, hops[1..], b, arrival);
      var rest, all := TasksOf(net, hops[1..], arrival), TasksOf(net, hops, t);
      assert all == LegTasks(net, h, t) + rest;
      forall k | 0 <= k < |hops| ensures LegIsLived(net, hops[k], if k == 0 then t else all[3 * k - 1].endTime,
          all[3 * k], all[3 * k + 1], all[3 * k + 2])
      {
        if k > 0 { assert hops[k] == hops[1..][k - 1] && all[3 * k] == rest[3 * (k - 1)]; }
      }
    }
  }

  /** The tasks follow one another without gap or overlap, in time and in space. */
  ghost predicate Tiles(tasks: seq<Task>, t: int, a: int, t': int, b: int) {
    if tasks == [] then t == t' && a == b
    else
      && tasks[0].startTime == t && t <= tasks[0].endTime && tasks[0].fromCity == a
      && Tiles(tasks[1..], tasks[0].endTime, tasks[0].destCity, t', b)
  }

  /** The tasks of a journey tile it from departure to arrival, which is where and when the
      timetable takes the traveller. */
  lemma {:induction false} TasksTileTheJourney(net: Network, a: int, hops: seq<Hop>, b: int, t: int)
    requires net.Valid() && Trail(net, a, hops, b) && t >= 0
    ensures Tiles(TasksOf(net, hops, t), t, a, Ride(net, hops, t), b)
    ensures t <= Ride(net, hops, t)
    ensures hops != [] ==> TasksOf(net, hops, t) != [] && Last(Trip(0, TasksOf(net, hops, t), [])) == Ride(net, hops, t)
    decreases hops
  {
    if hops != [] {
      var h := hops[0];
      DepartureIsEarliest(net.routes[a][h.index].startTime, t, 0);
      var arrival := ArriveAt(net, a, h.index, t);
      TasksTileTheJourney(net, net.Target(a, h.index), hops[1..], b, arrival);
      var leg, rest := LegTasks(net, h, t), TasksOf(net, hops[1..], arrival);
      assert (leg + rest)[1..] == leg[1..] + rest;
      assert (leg[1..] + rest)[1..] == leg[2..] + rest;
      assert (leg[2..] + rest)[1..] == rest;
    }
  }

  lemma {:induction false} TilesAreOrdered(tasks: seq<Task>, t: int, a: int, t': int, b: int, i: nat, j: nat)
    requires Tiles(tasks, t, a, t', b) && i <= j < |tasks|
    ensures t <= tasks[i].startTime <= tasks[j].startTime
    decreases j
  {
    if i > 0 {
      TilesAreOrdered(tasks[1..], tasks[0].endTime, tasks[0].destCity, t', b, i - 1, j - 1);
    } else if j > 0 {
      TilesAreOrdered(tasks[1..], tasks[0].endTime, tasks[0].destCity, t', b, 0, j - 1);
    }
  }

  /** Tasks that tile a journey can be replayed by a clock that has not passed its beginning. */
  lemma {:induction false} TilesAreOnTime(tasks: seq<Task>, t: int, a: int, t': int, b: int, minute: int)
    requires Tiles(tasks, t, a, t', b) && minute <= t
    ensures OnTime(minute, tasks)
  {
    forall i, j | 0 <= i < j < |tasks| ensures tasks[i].startTime <= tasks[j].startTime {
      TilesAreOrdered(tasks, t, a, t', b, i, j);
    }
  }

  /** The sum of all waits and rides. */
  ghost function TimeSpent(net: Network, hops: seq<Hop>, t: int): int
    decreases hops
  {
    if !Next(net, hops) then 0 else
      var r := net.routes[hops[0].city][hops[0].index];
      (Departure(r.startTime, t) - t) + r.costTime
        + TimeSpent(net, hops[1..], ArriveAt(net, hops[0].city, hops[0].index, t))
  }

  lemma {:induction false} TimeAdds(net: Network, hops: seq<Hop>, t: int)
    ensures Ride(net, hops, t) == t + TimeSpent(net, hops, t)
    decreases hops
  {
    if Next(net, hops) {
      TimeAdds(net, hops[1..], ArriveAt(net, hops[0].city, hops[0].index, t));
    }
  }

  ghost predicate WithinLimit(q: Query, l: Labels, v: int)
    requires Shape(|l.prev|, l)
  {
    0 <= v < |l.prev| ==> Label(q, l, v) - q.startT <= q.limit
  }

  /** Along a tree path the labels are the arrivals of a real journey, each within the limit. */
  lemma {:induction false} LabelsAreArrivals(net: Network, q: Query, l: Labels, order: seq<int>, path: seq<int>,
        last: int)
    requires ValidQuery(net, q) && Tree(net, q, l, order) && TreePath(net.Size(), l, order, path)
    requires last == path[|path| - 1] && 0 <= last < net.Size()
    ensures Ride(net, HopsOf(l, path), Label(q, l, path[0])) == Label(q, l, last)
    ensures forall v :: v in path[1..] ==> WithinLimit(q, l, v)
  {
    if |path| >= 2 {
      LabelsAreArrivals(net, q, l, order, path[1..], last);
      TreeEdge(net, q, l, order, path[1]);
      assert HopsOf(l, path)[1..] == HopsOf(l, path[1..]);
      assert forall v :: v in path[1..] ==> v == path[1] || v in path[1..][1..];
    }
  }

  // ---------------------------------------------------------------- rebuilding the path

  /** Every visited city but the start has its predecessor earlier in the order of visits. */
  ghost predicate Parents(n: nat, l: Labels, order: seq<int>, start: int)
    requires Shape(n, l)
  {
    && Cities(n, order) && Distinct(order)
    && |order| > 0 && order[0] == start && 0 <= start < n && l.prev[start] == -1
    && (forall k :: 1 <= k < |order| ==> ParentBefore(l, order, k))
  }

  ghost predicate ParentBefore(l: Labels, order: seq<int>, k: nat) {
    k < |order| && 0 <= order[k] < |l.prev| && l.prev[order[k]] in order[..k]
  }

  lemma {:induction false} TreeHasParents(net: Network, q: Query, l: Labels, order: seq<int>)
    requires ValidQuery(net, q) && Tree(net, q, l, order)
    ensures Parents(net.Size(), l, order, q.start)
  {
    forall k | 1 <= k < |order| ensures ParentBefore(l, order, k) {
      assert TreeNode(net, q, l, order, k);
    }
  }

  lemma {:induction false} HasParent(n: nat, l: Labels, order: seq<int>, start: int, k: nat)
    requires Shape(n, l) && Parents(n, l, order, start) && k < |order|
    ensures k > 0 ==> l.prev[order[k]] != -1
  {
    if k > 0 { assert ParentBefore(l, order, k); }
  }

  /** The walk back along `prev`.  It fills `routePass` from its end; the index cannot underflow
      because each step goes back at least one place in the order of visits. */
  method Rebuild(n: nat, l: Labels, ghost order: seq<int>, start: int, dest: int) returns (routePass: seq<int>,
        index: nat)
    requires Shape(n, l) && Parents(n, l, order, start)
    requires dest in order && dest != start
    ensures |routePass| == n && index < n - 1
    ensures TreePath(n, l, order, routePass[index..])
    ensures routePass[index] == start && routePass[n - 1] == dest
  {
    routePass := seq(n, _ => -1);
    index := n - 1;
    var pos := dest;
    OrderIsBounded(n, order);
    ghost var k :| 0 <= k < |order| && order[k] == pos;
    while l.prev[pos] != -1
      invariant |routePass| == n && 0 <= k <= index < n && k < |order| && order[k] == pos
      invariant index == n - 1 ==> pos == dest
      invariant index < n - 1 ==> routePass[n - 1] == dest
      invariant TreePath(n, l, order, [pos] + routePass[index + 1..])
      invariant forall j :: index < j < n ==> routePass[j] !in order[..k + 1]
      decreases k
    {
      assert k > 0 && ParentBefore(l, order, k);
      ghost var rest := [pos] + routePass[index + 1..];
      routePass := routePass[index := pos];
      index := index - 1;
      assert routePass[index + 1..] == rest;
      pos := l.prev[pos];
      ghost var k' :| 0 <= k' < k && order[..k][k'] == pos;
      k := k';
      assert ([pos] + rest)[1..] == rest;
    }
    HasParent(n, l, order, start, k);
    ghost var path := [pos] + routePass[index + 1..];
    routePass := routePass[index := start];
    assert routePass[index..] == path;
  }

  // ---------------------------------------------------------------- tasks and report

  datatype Leg = Leg(city: int, vehicle: string, serialNum: int)

  function VehicleLetter(vehicleType: int): string {
    if vehicleType == 0 then "A" else if vehicleType == 1 then "T" else if vehicleType == 2 then "C" else ""
  }

  function LegOf(net: Network, h: Hop): Leg
    requires net.HasRoute(h.city, h.index)
  {
    var r := net.routes[h.city][h.index];
    Leg(h.city, VehicleLetter(r.vehicleType), r.serialNum)
  }

  ghost function LegsOf(net: Network, hops: seq<Hop>): seq<Leg>
    decreases hops
  {
    if !Next(net, hops) then [] else
      [LegOf(net, hops[0])] + LegsOf(net, hops[1..])
  }

  /** What is told of a hop: the city, a letter for plane, train or car, and the number. */
  ghost predicate LegIsTold(net: Network, h: Hop, leg: Leg) {
    && net.HasRoute(h.city, h.index) && leg.city == h.city
    && var r := net.routes[h.city][h.index];
       leg.serialNum == r.serialNum
       && leg.vehicle == (if r.vehicleType == 0 then "A" else if r.vehicleType == 1 then "T" else "C")
  }

  lemma {:induction false} LegsAreTold(net: Network, a: int, hops: seq<Hop>, b: int)
    requires net.Valid() && Trail(net, a, hops, b)
    ensures |LegsOf(net, hops)| == |hops|
    ensures forall k :: 0 <= k < |hops| ==> LegIsTold(net, hops[k], LegsOf(net, hops)[k])
    decreases hops
  {
    if hops != [] { LegsAreTold(net, net.Target(a, hops[0].index), hops[1..], b); }
  }

  /** What the traveller is told: no path, or the legs, the time spent and a risk. */
  datatype Report = NoPath | Found(legs: seq<Leg>, hours: int, minutes: int, risk: int)

  /** The labels along the path record a journey that starts at `t`. */
  ghost predicate Recorded(net: Network, l: Labels, path: seq<int>, t: int)
    requires Shape(net.Size(), l)
    decreases path
  {
    && path != []
    && (|path| > 1 ==>
        var u, v := path[0], path[1];
        && 0 <= u < net.Size() && 0 <= v < net.Size()
        && var i := l.route[u][v];
        && net.HasRoute(u, i) && net.Target(u, i) == v
        && l.spend[u][v] == ArriveAt(net, u, i, t)
        && Recorded(net, l, path[1..], l.spend[u][v]))
  }

  lemma {:induction false} TreePathIsRecorded(net: Network, q: Query, l: Labels, order: seq<int>, path: seq<int>)
    requires ValidQuery(net, q) && Tree(net, q, l, order) && TreePath(net.Size(), l, order, path)
    ensures Recorded(net, l, path, Label(q, l, path[0]))
  {
    if |path| > 1 {
      TreeEdge(net, q, l, order, path[1]);
      TreePathIsRecorded(net, q, l, order, path[1..]);
    }
  }

  lemma {:induction false} RecordedIsTrail(net: Network, l: Labels, path: seq<int>, t: int)
    requires Shape(net.Size(), l) && Recorded(net, l, path, t)
    ensures Trail(net, path[0], HopsOf(l, path), path[|path| - 1])
    decreases path
  {
    if |path| > 1 {
      RecordedIsTrail(net, l, path[1..], l.spend[path[0]][path[1]]);
      assert HopsOf(l, path)[1..] == HopsOf(l, path[1..]);
    }
  }

  lemma {:induction false} RecordedIsLived(net: Network, l: Labels, path: seq<int>, t: int)
    requires net.Valid() && Shape(net.Size(), l) && Recorded(net, l, path, t) && t >= 0
    ensures Lived(net, HopsOf(l, path), t, TasksOf(net, HopsOf(l, path), t))
  {
    RecordedIsTrail(net, l, path, t);
    TasksAreLived(net, path[0], HopsOf(l, path), path[|path| - 1], t);
  }

  /** Handing the traveller the three tasks of one leg; `rest` stands for the tasks to follow. */
  method EmitLeg(net: Network, l: Labels, cityId: int, nextCity: int, taskStartTime: int, customer: Customer,
        ghost rest: seq<Task>)
    requires Shape(net.Size(), l) && 0 <= cityId < net.Size() && 0 <= nextCity < net.Size()
    requires net.HasRoute(cityId, l.route[cityId][nextCity])
        && net.Target(cityId, l.route[cityId][nextCity]) == nextCity
    requires l.spend[cityId][nextCity] == ArriveAt(net, cityId, l.route[cityId][nextCity], taskStartTime)
    modifies customer`m_taskQueue
    ensures var leg := LegTasks(net, Hop(cityId, l.route[cityId][nextCity]), taskStartTime);
      customer.m_taskQueue + rest == old(customer.m_taskQueue) + (leg + rest)
  {
    ghost var queue := customer.m_taskQueue;
    var route := net.routes[cityId][l.route[cityId][nextCity]];
    var spend := l.spend[cityId][nextCity];
    customer.AddTask(Task(taskStartTime, spend - route.costTime, Waiting,
      route.serialNum, route.vehicleType, cityId, cityId));
    customer.AddTask(Task(spend - route.costTime, spend, Traveling,
      route.serialNum, route.vehicleType, cityId, nextCity));
    customer.AddTask(Task(spend, spend, Arrive, 0, 0, nextCity, nextCity));
    assert customer.m_taskQueue == queue + LegTasks(net, Hop(cityId, l.route[cityId][nextCity]), taskStartTime);
  }

  /** The walk along the path: its legs are reported and, if the journey is to begin now, become
      the traveller's tasks. */
  method Emit(net: Network, l: Labels, routePass: seq<int>, start: nat, startT: int,
              setoff: bool, customer: Customer) returns (legs: seq<Leg>)
    requires Shape(net.Size(), l) && |routePass| == net.Size() && start < net.Size()
    requires Recorded(net, l, routePass[start..], startT)
    modifies customer`m_taskQueue
    ensures legs == LegsOf(net, HopsOf(l, routePass[start..]))
    ensures customer.m_taskQueue == old(customer.m_taskQueue)
      + if setoff then TasksOf(net, HopsOf(l, routePass[start..]), startT) else []
    ensures setoff && net.Valid() && startT >= 0 ==>
      Lived(net, HopsOf(l, routePass[start..]), startT, customer.m_taskQueue[|old(customer.m_taskQueue)|..])
  {
    hide Lived, LegTasks, Departure, VehicleLetter, Trail;
    if net.Valid() && startT >= 0 { RecordedIsLived(net, l, routePass[start..], startT); }
    var cityNum := net.Size();
    ghost var path := routePass[start..];
    ghost var all := HopsOf(l, path);
    var index := start;
    var taskStartTime := startT;
    ghost var t := startT;
    legs := [];
    while index < cityNum - 1
      invariant start <= index < cityNum
      invariant path == routePass[index..] && Recorded(net, l, path, t)
      invariant legs + LegsOf(net, HopsOf(l, path)) == LegsOf(net, all)
      invariant setoff ==> taskStartTime == t
      invariant setoff ==>
        customer.m_taskQueue + TasksOf(net, HopsOf(l, path), t)
        == old(customer.m_taskQueue) + TasksOf(net, all, startT)
      invariant !setoff ==> customer.m_taskQueue == old(customer.m_taskQueue)
    {
      assert HopsOf(l, path)[1..] == HopsOf(l, path[1..]);
      var cityId := routePass[index];
      var nextCity := routePass[index + 1];
      var routeId := l.route[cityId][nextCity];
      var route := net.routes[cityId][routeId];
      legs := legs + [Leg(cityId, VehicleLetter(route.vehicleType), route.serialNum)];
      if setoff {
        ghost var rest := TasksOf(net, HopsOf(l, path[1..]), l.spend[cityId][nextCity]);
        EmitLeg(net, l, cityId, nextCity, taskStartTime, customer, rest);
        taskStartTime := l.spend[cityId][nextCity];
      }
      t := l.spend[cityId][nextCity];
      index := index + 1;
      path := path[1..];
    }
  }
}
