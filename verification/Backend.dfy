/** The query entry point and the main loop around the planner and the traveller. */
module Backend {
  import opened Timetable
  import opened SearchLabels
  import opened RouteSearch
  import opened Optimality
  import opened Traveller
  import opened Itinerary

  /** The report fits the labels: no path exactly when the destination was not visited, else the
      legs, time and risk of the tree path to it.  The risk is that of the last leg alone. */
  ghost predicate Planned(net: Network, q: Query, l: Labels, order: seq<int>, path: seq<int>, report: Report)
    requires ValidQuery(net, q)
  {
    && SearchDone(net, q, l, order)
    && (report.NoPath? <==> !l.visit[q.dest])
    && (report.Found? ==>
          && TreePath(net.Size(), l, order, path)
          && path[0] == q.start && path[|path| - 1] == q.dest
          && var hops := HopsOf(l, path);
             var total := Ride(net, hops, q.startT) - q.startT;
             report == Found(LegsOf(net, hops), total / 60, total % 60, l.risks[q.dest]))
  }

  method RunWithAlgorithmDij(net: Network, q: Query, setoff: bool, customer: Customer)
    returns (report: Report, ghost l: Labels, ghost order: seq<int>, ghost path: seq<int>)
    requires ValidQuery(net, q)
    modifies customer`m_taskQueue
    ensures Planned(net, q, l, order, path, report)
    ensures customer.m_taskQueue == old(customer.m_taskQueue) +
      if setoff && report.Found? then TasksOf(net, HopsOf(l, path), q.startT) else []
    ensures setoff && report.Found? ==>
      Lived(net, HopsOf(l, path), q.startT, customer.m_taskQueue[|old(customer.m_taskQueue)|..])
  {
    hide TasksOf, LegsOf, HopsOf, Lived, Recorded, TreePath, Ride, Parents;
    var labels, visits := Search(net, q);
    l, order, path := labels, visits, [];
    if !labels.visit[q.dest] {
      report := NoPath;
      return;
    }
    TreeHasParents(net, q, l, order);
    var routePass, index := Rebuild(net.Size(), labels, order, q.start, q.dest);
    path := routePass[index..];
    TreePathIsRecorded(net, q, l, order, path);
    LabelsAreArrivals(net, q, l, order, path, q.dest);
    ghost var k :| 0 <= k < |order| && order[k] == q.dest;
    assert TreeNode(net, q, l, order, k);
    var legs := Emit(net, labels, routePass, index, q.startT, setoff, customer);
    var total := labels.spend[labels.prev[q.dest]][q.dest] - q.startT;
    report := Found(legs, total / 60, total % 60, labels.risks[q.dest]);
  }

  lemma {:induction false} TreePathEnds(n: nat, l: Labels, order: seq<int>, path: seq<int>)
    requires Shape(n, l) && TreePath(n, l, order, path) && |path| > 1
    ensures path[|path| - 1] in path[1..]
    ensures HopsOf(l, path) != []
  {
    assert path[1..][|path| - 2] == path[|path| - 1];
  }

  lemma {:induction false} TrailTiles(net: Network, a: int, hops: seq<Hop>, b: int, t: int)
    requires net.Valid() && Trail(net, a, hops, b) && hops != [] && t >= 0
    ensures var tasks, arrival := TasksOf(net, hops, t), t + TimeSpent(net, hops, t);
      && Ride(net, hops, t) == arrival
      && Tiles(tasks, t, a, arrival, b) && tasks != [] && Last(Trip(0, tasks, [])) == arrival
  {
    TasksTileTheJourney(net, a, hops, b, t);
    TimeAdds(net, hops, t);
  }

  lemma {:induction false} PathTrail(net: Network, q: Query, l: Labels, order: seq<int>, path: seq<int>)
    requires ValidQuery(net, q) && Tree(net, q, l, order) && TreePath(net.Size(), l, order, path)
    requires path[0] == q.start && path[|path| - 1] == q.dest
    ensures HopsOf(l, path) != [] && Trail(net, q.start, HopsOf(l, path), q.dest)
  {
    TreePathReaches(net, q, l, order, path);
    TreePathEnds(net.Size(), l, order, path);
  }

  /** Planned journeys are journeys: a route to the destination, bottleneck-optimal, within the
      limit, whose duration is the sum of its waits and rides. */
  lemma {:induction false} PlannedJourney(net: Network, q: Query, l: Labels, order: seq<int>, path: seq<int>,
        report: Report, rival: seq<Hop>)
    requires ValidQuery(net, q) && Planned(net, q, l, order, path, report) && report.Found?
    ensures var hops := HopsOf(l, path);
      && hops != [] && Trail(net, q.start, hops, q.dest)
      && report.hours * 60 + report.minutes == TimeSpent(net, hops, q.startT) <= q.limit && 0 <= report.minutes < 60
      && report.risk == l.risks[q.dest] && |report.legs| == |hops|
      && (forall k :: 0 <= k < |hops| ==> LegIsTold(net, hops[k], report.legs[k]))
      && Tiles(TasksOf(net, hops, q.startT), q.startT, q.start, q.startT + TimeSpent(net, hops, q.startT), q.dest)
    ensures Trail(net, q.start, rival, q.dest) && Allowed(net, q, l, rival) ==>
      Allowed(net, q, l, HopsOf(l, path)) && Peak(net, q, l, HopsOf(l, path)) <= Peak(net, q, l, rival)
  {
    hide Tiles, HopsOf, TasksOf, Trail, TimeSpent, LegsOf, LegIsTold, Peak, Allowed;
    PathTrail(net, q, l, order, path);
    TrailTiles(net, q.start, HopsOf(l, path), q.dest, q.startT);
    LegsAreTold(net, q.start, HopsOf(l, path), q.dest);
    LabelsAreArrivals(net, q, l, order, path, q.dest);
    TreePathEnds(net.Size(), l, order, path);
    if Trail(net, q.start, rival, q.dest) && Allowed(net, q, l, rival) {
      BottleneckOptimal(net, q, l, order, path, rival);
    }
  }

  /** "No such path found" is reported exactly when no route is in time at the labels with every
      risk below INF; with a limit that leaves a day and the longest ride for every leg, exactly
      when no sequence of routes leads to the destination at all. */
  lemma {:induction false} NoPathIff(net: Network, q: Query, l: Labels, order: seq<int>, path: seq<int>, report: Report)
    requires ValidQuery(net, q) && Planned(net, q, l, order, path, report)
    ensures report.NoPath? <==> !exists hops :: AllowedRoute(net, q, l, hops)
    ensures forall maxCost :: Bounded(net, maxCost) && Generous(net, q, maxCost) ==>
      (report.NoPath? <==> !Reachable(net, q.start, q.dest))
  {
    ReachedIffAllowedRoute(net, q, l, order, path);
    forall maxCost | Bounded(net, maxCost) && Generous(net, q, maxCost)
      ensures report.NoPath? <==> !Reachable(net, q.start, q.dest)
    {
      ReachedIffReachable(net, q, l, order, path, maxCost);
    }
  }

  /** Policies of the query form. */
  const SAFETY_REFERED := 0
  const TIME_REFERED := 1
  const NO_LIMIT := 0x7FFFFFF

  datatype Reply = SameCity | BadHour | BadMinute | StillTravelling | UnknownPolicy | Answer(report: Report)

  /** The departure as the planner counts it: today, or tomorrow if that minute is past. */
  function StartMinute(startH: int, startM: int, now: int): int {
    if startH * 60 + startM < now then (startH + 24) * 60 + startM else startH * 60 + startM
  }

  lemma {:induction false} StartMinuteIsNext(startH: int, startM: int, now: int)
    requires 0 <= startH < 24 && 0 <= startM < 60 && 0 <= now < DAY
    ensures StartMinute(startH, startM, now) == Departure(startH * 60 + startM, now)
    ensures now <= StartMinute(startH, startM, now) < now + DAY
  {
    var s := startH * 60 + startM;
    if s < now {
      assert (s - now) % DAY == s - now + DAY;
    }
  }

  /** The two clocks and the loop counter of the main thread. */
  datatype Clocks = Clocks(sysTime: nat, ten: nat, trip: Trip)

  function Iteration(c: Clocks): Clocks {
    var (sys, ten) := if c.ten == 10 then (c.sysTime + 360, 0) else (c.sysTime, c.ten);
    Clocks(sys, ten + 1, Tick(c.trip))
  }

  function Iterations(c: Clocks, k: nat): Clocks
    decreases k
  {
    if k == 0 then c else Iterations(Iteration(c), k - 1)
  }

  function Drift(c: Clocks): int { c.trip.clock - c.sysTime - 36 * c.ten }

  /** While the journey lasts, the traveller's clock keeps its distance from the system clock: it
      differs by a constant once the running counter is allowed for. */
  lemma {:induction false} DriftIsConstant(c: Clocks, k: nat)
    requires c.ten <= 10
    requires forall j :: 0 <= j < k ==> Ticks(c.trip, j).queue != []
    ensures Iterations(c, k).trip == Ticks(c.trip, k) && Iterations(c, k).ten <= 10
    ensures Drift(Iterations(c, k)) == Drift(c)
    decreases k
  {
    if k > 0 {
      assert Ticks(c.trip, 0).queue != [];
      forall j | 0 <= j < k - 1 ensures Ticks(Iteration(c).trip, j).queue != [] {
        assert Ticks(c.trip, j + 1) == Ticks(Tick(c.trip), j);
      }
      DriftIsConstant(Iteration(c), k - 1);
    }
  }

  /** The minute of the day that the system clock shows. */
  function SystemMinute(sysTime: nat): int { sysTime / 60 % DAY }

  lemma {:induction false} ClockShows(day: nat, hour: nat, minute: nat, second: nat)
    requires hour < 24 && minute < 60 && second < 60
    ensures SystemMinute(86400 * day + 3600 * hour + 60 * minute + second) == 60 * hour + minute
  {
    var minutes := 1440 * day + 60 * hour + minute;
    assert (60 * minutes + second) / 60 == minutes;
    assert minutes % DAY == 60 * hour + minute;
  }

  /** The system clock stands still for ten rounds and leaps in the eleventh. */
  lemma {:induction false} ClockLeaps(c: Clocks, k: nat)
    requires c.ten + k <= 10
    ensures Iterations(c, k).sysTime == c.sysTime && Iterations(c, k).ten == c.ten + k
    ensures c.ten + k == 10 ==> Iteration(Iterations(c, k)).sysTime == c.sysTime + 360
    ensures c.ten + k == 10 ==> Iteration(Iterations(c, k)).ten == 1
    decreases k
  {
    if k > 0 { ClockLeaps(Iteration(c), k - 1); }
  }

  /** What a query does to the clocks: the traveller's is set to the minute of the system clock. */
  function Queried(c: Clocks): Clocks {
    c.(trip := c.trip.(clock := SystemMinute(c.sysTime) * 60))
  }

  lemma {:induction false} TripOfIterations(c: Clocks, k: nat)
    ensures Iterations(c, k).trip == Ticks(c.trip, k)
    decreases k
  {
    if k > 0 { TripOfIterations(Iteration(c), k - 1); }
  }

  /** Some number of rounds brings the traveller to the end of the journey. */
  ghost predicate Completes(c: Clocks) {
    exists k :: Iterations(c, k).trip.queue == []
  }

  lemma {:induction false} CompletesIff(c: Clocks)
    ensures Completes(c) <==> OnTime(c.trip.clock / 60, c.trip.queue)
  {
    CompletesIffOnTime(c.trip);
    if Completes(c) {
      var k :| Iterations(c, k).trip.queue == [];
      TripOfIterations(c, k);
    }
    if k :| Ticks(c.trip, k).queue == [] {
      TripOfIterations(c, k);
    }
  }

  /** A query in query mode does not only print: whatever the traveller is doing, the journey comes to
      its end afterwards exactly when the rest of it is ordered and not in the past of the system
      clock; a journey that would have come to its end, exactly when the next task is not. */
  lemma {:induction false} QueryModeCompletesIff(c: Clocks)
    ensures Completes(Queried(c)) <==> OnTime(SystemMinute(c.sysTime), c.trip.queue)
    ensures Completes(c) && c.trip.queue != [] ==>
      (Completes(Queried(c)) <==> SystemMinute(c.sysTime) <= c.trip.queue[0].startTime)
  {
    CompletesIff(c);
    CompletesIff(Queried(c));
  }

  /** And it can fail: the system clock runs in leaps of six minutes.  A traveller who is to start a
      task in the next minute, and would, is stranded by a query two rounds later. */
  lemma {:induction false} QueryStrands(task: Task)
    requires task.startTime == 1
    ensures var c := Clocks(59, 9, Trip(0, [task], []));
      Queried(c) == c && Completes(c) && !Completes(Queried(Iterations(c, 2)))
  {
    hide Due, Completes, Tick;
    var c := Clocks(59, 9, Trip(0, [task], []));
    assert SystemMinute(59) == 0 && SystemMinute(419) == 6;
    EarlyTick(task, 0);
    EarlyTick(task, 36);
    assert Iterations(c, 2) == Iterations(Iteration(c), 1) == Iterations(Iteration(Iteration(c)), 0);
    CompletesIff(c);
    QueryModeCompletesIff(Iterations(c, 2));
  }

  /** In minute 0 nothing is due. */
  lemma {:induction false} EarlyTick(task: Task, clock: nat)
    requires task.startTime == 1 && clock < 60
    ensures Tick(Trip(clock, [task], [])) == Trip(clock + 36, [task], [])
  {
    assert FiredAt(0, [task][..0]) == [];
  }

  class Backend {
    const net: Network
    const customer: Customer
    /** Seconds since a midnight. */
    var m_sysTime: nat
    var ten: nat

    constructor (net: Network, customer: Customer, time: nat)
      ensures this.net == net && this.customer == customer && m_sysTime == time && ten == 0
    {
      this.net, this.customer, m_sysTime, ten := net, customer, time, 0;
    }

    function State(): Clocks
      reads this, customer
    {
      Clocks(m_sysTime, ten, customer.State())
    }

    /** Minute of the day shown by the system clock. */
    function NowMinute(): int
      reads this
    {
      SystemMinute(m_sysTime)
    }

    /** One round of the main loop; while the loop is paused no round is made. */
    method Iterate()
      modifies this, customer
      ensures State() == Iteration(old(State()))
    {
      if ten == 10 {
        m_sysTime := m_sysTime + 360;
        ten := 0;
      }
      customer.UpdateStatus();
      ten := ten + 1;
    }

    /** A query.  The traveller's clock is reset even when nobody sets off, which a journey under way
        survives exactly when it is on time for the system clock. */
    method StartQuery(fromCity: int, destCity: int, startH: int, startM: int, policy: int, setoff: bool, timeLmt: int)
      returns (reply: Reply, ghost q: Query, ghost l: Labels, ghost order: seq<int>, ghost path: seq<int>)
      requires net.Valid() && 0 <= fromCity < net.Size() && 0 <= destCity < net.Size()
      modifies customer
      ensures reply.SameCity? <==> fromCity == destCity
      ensures reply.BadHour? <==> fromCity != destCity && !(0 <= startH < 24)
      ensures reply.BadMinute? <==> fromCity != destCity && 0 <= startH < 24 && !(0 <= startM < 60)
      ensures var accepted := fromCity != destCity && 0 <= startH < 24 && 0 <= startM < 60;
        && (reply.StillTravelling? <==> accepted && setoff && old(customer.m_taskQueue) != [])
        && (reply.UnknownPolicy? <==>
              accepted && !reply.StillTravelling? && policy != 0 && policy != 1)
      ensures !reply.UnknownPolicy? && !reply.Answer? ==> customer.State() == old(customer.State())
      ensures reply.UnknownPolicy? ==> customer.State() == old(customer.State()).(clock := NowMinute() * 60)
      ensures reply.Answer? ==>
        && q == Query(fromCity, destCity, Departure(startH * 60 + startM, NowMinute()),
                      if policy == 1 then timeLmt else 0x7FFFFFF)
        && ValidQuery(net, q) && Planned(net, q, l, order, path, reply.report)
        && customer.State() == old(customer.State()).(
             clock := NowMinute() * 60,
             queue := old(customer.m_taskQueue) +
               if setoff && reply.report.Found? then TasksOf(net, HopsOf(l, path), q.startT) else [])
      ensures !setoff && (reply.UnknownPolicy? || reply.Answer?) ==>
        State() == Queried(old(State())) && (Completes(State()) <==> OnTime(NowMinute(), old(customer.m_taskQueue)))
    {
      hide Planned, Completes, OnTime, TasksOf;
      QueryModeCompletesIff(State());
      q, l, order, path := Query(0, 0, 0, 0), Labels([], [], [], [], []), [], [];
      if fromCity == destCity { reply := SameCity; return; }
      if startH >= 24 || startH < 0 { reply := BadHour; return; }
      if startM >= 60 || startM < 0 { reply := BadMinute; return; }
      if setoff && !customer.IsTaskEmpty() { reply := StillTravelling; return; }
      customer.SetSysTime(NowMinute() * 60);
      StartMinuteIsNext(startH, startM, NowMinute());
      var hour := startH;
      if startH * 60 + startM < NowMinute() {
        hour := startH + 24;
      }
      var report;
      if policy == TIME_REFERED {
        q := Query(fromCity, destCity, hour * 60 + startM, timeLmt);
        report, l, order, path :=
          RunWithAlgorithmDij(net, Query(fromCity, destCity, hour * 60 + startM, timeLmt), setoff, customer);
      } else if policy == SAFETY_REFERED {
        q := Query(fromCity, destCity, hour * 60 + startM, NO_LIMIT);
        report, l, order, path :=
          RunWithAlgorithmDij(net, Query(fromCity, destCity, hour * 60 + startM, NO_LIMIT), setoff, customer);
      } else {
        reply := UnknownPolicy;
        return;
      }
      reply := Answer(report);
    }
  }

  lemma {:induction false} TilesAreReplayed(tasks: seq<Task>, t: int, a: int, arrival: int, b: int, now: nat,
        fired: seq<Fired>)
    requires Tiles(tasks, t, a, arrival, b) && now <= t
    requires tasks != [] && Last(Trip(0, tasks, [])) == arrival
    ensures now <= arrival
    ensures var k := (5 * (arrival - now) + 2) / 3;
      var trip := Trip(now * 60, tasks, fired);
      && Ticks(trip, k + 1) == Trip(now * 60 + 36 * (k + 1), [], fired + Punctual(tasks))
      && forall j :: 0 <= j <= k ==> Ticks(trip, j).queue != []
  {
    TilesAreOnTime(tasks, t, a, arrival, b, now);
    TilesAreOrdered(tasks, t, a, arrival, b, |tasks| - 1, |tasks| - 1);
    StepsFromMinute(now, arrival);
    var trip := Trip(now * 60, tasks, fired);
    assert Last(trip) == arrival && trip.clock / 60 == now;
    Replay(trip);
  }

  /** The journey as it is lived.  Once a traveller has set off at minute `now`, the updates start
      every task of the plan exactly once, in order, each in its own minute; the queue is
      emptied by the update after the ceil(5 * (arrival - now) / 3)-th step of the clock and not
      before. */
  lemma {:induction false} JourneyIsReplayed(net: Network, q: Query, l: Labels, order: seq<int>, path: seq<int>,
        report: Report, now: nat, fired: seq<Fired>)
    requires ValidQuery(net, q) && Planned(net, q, l, order, path, report) && report.Found?
    requires now <= q.startT
    ensures var tasks := TasksOf(net, HopsOf(l, path), q.startT);
      var arrival := q.startT + TimeSpent(net, HopsOf(l, path), q.startT);
      var k := (5 * (arrival - now) + 2) / 3;
      var t := Trip(now * 60, tasks, fired);
      && k >= 0 && Lived(net, HopsOf(l, path), q.startT, tasks)
      && Ticks(t, k + 1) == Trip(now * 60 + 36 * (k + 1), [], fired + Punctual(tasks))
      && forall j :: 0 <= j <= k ==> Ticks(t, j).queue != []
  {
    hide Ticks, Punctual, Tiles, Lived, HopsOf, TasksOf, TreePath, Trail, TimeSpent, Ride, LegsOf;
    var hops := HopsOf(l, path);
    PathTrail(net, q, l, order, path);
    TrailTiles(net, q.start, hops, q.dest, q.startT);
    TasksAreLived(net, q.start, hops, q.dest, q.startT);
    TilesAreReplayed(TasksOf(net, hops, q.startT), q.startT, q.start,
      q.startT + TimeSpent(net, hops, q.startT), q.dest, now, fired);
  }
}
