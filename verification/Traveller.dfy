/** The traveller's task queue and the clock that replays it.
    The clock counts seconds from midnight of the day of departure. */
module Traveller {

  datatype Behavior = Waiting | Traveling | Arrive

  /** `fromCity` and `destCity` are city ids; the program carries the names of those cities. */
  datatype Task = Task(
    startTime: int, endTime: int, behavior: Behavior,
    tacNumber: int, vehicleType: int, fromCity: int, destCity: int)

  /** A task that was started, with the minute at which it was. */
  datatype Fired = Fired(minute: int, task: Task)

  datatype Trip = Trip(clock: nat, queue: seq<Task>, fired: seq<Fired>)

  /** How many leading tasks are due in the current minute. */
  function Due(minute: int, queue: seq<Task>): (m: nat)
    ensures m <= |queue|
    ensures forall i :: 0 <= i < m ==> queue[i].startTime == minute
    ensures m < |queue| ==> queue[m].startTime != minute
  {
    if queue == [] || queue[0].startTime != minute then 0 else 1 + Due(minute, queue[1..])
  }

  function FiredAt(minute: int, tasks: seq<Task>): seq<Fired> {
    seq(|tasks|, i requires 0 <= i < |tasks| => Fired(minute, tasks[i]))
  }

  /** One call of the update: start what is due, then move the clock by 36 seconds, unless there
      was nothing to do from the outset. */
  function Tick(t: Trip): Trip {
    if t.queue == [] then t else
      var m := Due(t.clock / 60, t.queue);
      Trip(t.clock + 36, t.queue[m..], t.fired + FiredAt(t.clock / 60, t.queue[..m]))
  }

  function Ticks(t: Trip, k: nat): Trip
    decreases k
  {
    if k == 0 then t else Ticks(Tick(t), k - 1)
  }

  ghost predicate OnTime(minute: int, queue: seq<Task>) {
    && (queue != [] ==> minute <= queue[0].startTime)
    && (forall i, j :: 0 <= i < j < |queue| ==> queue[i].startTime <= queue[j].startTime)
  }

  /** The number of clock steps after which the clock first shows minute `s`. */
  function StepsTo(clock: nat, s: int): nat {
    if s * 60 <= clock then 0 else (s * 60 - clock + 35) / 36
  }

  /** Every task started in the minute it is planned for. */
  function Punctual(queue: seq<Task>): seq<Fired> {
    seq(|queue|, i requires 0 <= i < |queue| => Fired(queue[i].startTime, queue[i]))
  }

  lemma {:induction false} TickKeepsOnTime(t: Trip)
    requires OnTime(t.clock / 60, t.queue) && t.queue != []
    ensures OnTime(Tick(t).clock / 60, Tick(t).queue)
  {
    var m := Due(t.clock / 60, t.queue);
    if m < |t.queue| {
      if m > 0 { assert t.queue[0].startTime == t.clock / 60 <= t.queue[m].startTime; }
      assert t.clock / 60 + 1 <= t.queue[m].startTime;
      assert (t.clock + 36) / 60 <= t.clock / 60 + 1;
    }
  }

  lemma {:induction false} PunctualConcat(a: seq<Task>, b: seq<Task>)
    ensures Punctual(a + b) == Punctual(a) + Punctual(b)
  {
  }

  lemma {:induction false} DueIsPunctual(minute: int, queue: seq<Task>)
    ensures FiredAt(minute, queue[..Due(minute, queue)]) == Punctual(queue[..Due(minute, queue)])
  {
  }

  /** What has been started, plus what is still to be started in its own minute, never changes. */
  lemma {:induction false} TickKeepsLog(t: Trip)
    ensures Tick(t).fired + Punctual(Tick(t).queue) == t.fired + Punctual(t.queue)
  {
    if t.queue != [] {
      var m := Due(t.clock / 60, t.queue);
      DueIsPunctual(t.clock / 60, t.queue);
      PunctualConcat(t.queue[..m], t.queue[m..]);
      assert t.queue == t.queue[..m] + t.queue[m..];
    }
  }

  lemma {:induction false} AllDue(minute: int, queue: seq<Task>)
    requires OnTime(minute, queue) && queue != [] && queue[|queue| - 1].startTime <= minute
    ensures Due(minute, queue) == |queue|
  {
  }

  lemma {:induction false} StepsAfterTick(clock: nat, s: int)
    requires StepsTo(clock, s) > 0
    ensures StepsTo(clock + 36, s) == StepsTo(clock, s) - 1
    ensures clock / 60 < s
  {
  }

  function Last(t: Trip): int
    requires t.queue != []
  {
    t.queue[|t.queue| - 1].startTime
  }

  lemma {:induction false} TickKeepsLast(t: Trip)
    requires OnTime(t.clock / 60, t.queue) && t.queue != [] && t.clock / 60 < Last(t)
    ensures Tick(t).queue != [] && Last(Tick(t)) == Last(t) && Tick(t).clock == t.clock + 36
  {
  }

  lemma {:induction false} OnTheRoad(t: Trip, j: nat)
    requires OnTime(t.clock / 60, t.queue) && t.queue != [] && j <= StepsTo(t.clock, Last(t))
    ensures Ticks(t, j).queue != []
    decreases j
  {
    if j > 0 {
      StepsAfterTick(t.clock, Last(t));
      TickKeepsLast(t);
      TickKeepsOnTime(t);
      OnTheRoad(Tick(t), j - 1);
    }
  }

  lemma {:induction false} LastTick(t: Trip)
    requires OnTime(t.clock / 60, t.queue) && t.queue != [] && StepsTo(t.clock, Last(t)) == 0
    ensures Tick(t) == Trip(t.clock + 36, [], t.fired + Punctual(t.queue))
  {
    AllDue(t.clock / 60, t.queue);
    TickKeepsLog(t);
    assert Punctual(Tick(t).queue) == [];
  }

  lemma {:induction false} WorkedOff(t: Trip, k: nat)
    requires OnTime(t.clock / 60, t.queue) && t.queue != [] && k == StepsTo(t.clock, Last(t))
    ensures Ticks(t, k + 1) == Trip(t.clock + 36 * (k + 1), [], t.fired + Punctual(t.queue))
    decreases k
  {
    if k == 0 {
      LastTick(t);
      assert Ticks(t, 1) == Ticks(Tick(t), 0);
    } else {
      StepsAfterTick(t.clock, Last(t));
      TickKeepsLast(t);
      TickKeepsOnTime(t);
      TickKeepsLog(t);
      WorkedOff(Tick(t), k - 1);
    }
  }

  /** Exact replay.  A punctual, ordered queue is started task by task, each in its own minute,
      and is empty after exactly one update more than the clock needs to reach the last task. */
  lemma {:induction false} Replay(t: Trip)
    requires OnTime(t.clock / 60, t.queue) && t.queue != []
    ensures var k := StepsTo(t.clock, Last(t));
      && Ticks(t, k + 1) == Trip(t.clock + 36 * (k + 1), [], t.fired + Punctual(t.queue))
      && forall j :: 0 <= j <= k ==> Ticks(t, j).queue != []
  {
    WorkedOff(t, StepsTo(t.clock, Last(t)));
    forall j | 0 <= j <= StepsTo(t.clock, Last(t)) ensures Ticks(t, j).queue != [] {
      OnTheRoad(t, j);
    }
  }

  /** From a whole minute `now`, the clock needs ceil(5 (s - now) / 3) steps to reach minute `s`. */
  lemma {:induction false} StepsFromMinute(now: nat, s: int)
    requires now <= s
    ensures StepsTo(now * 60, s) == (5 * (s - now) + 2) / 3
  {
    var d := s - now;
    assert s * 60 - now * 60 == 60 * d;
    var a := (60 * d + 35) / 36;
    assert 36 * a <= 60 * d + 35 < 36 * a + 36;
  }

  /** Some task was missed, or will be because a later one precedes it. */
  ghost predicate Missed(minute: int, queue: seq<Task>) {
    || (exists i :: 0 <= i < |queue| && queue[i].startTime < minute)
    || (exists i, j :: 0 <= i < j < |queue| && queue[i].startTime > queue[j].startTime)
  }

  lemma {:induction false} PastTaskStays(minute: int, queue: seq<Task>, i: nat)
    requires i < |queue| && queue[i].startTime < minute
    ensures Missed(minute, queue[Due(minute, queue)..])
  {
    var m := Due(minute, queue);
    assert queue[m..][i - m].startTime < minute;
  }

  lemma {:induction false} InversionStays(minute: int, queue: seq<Task>, i: nat, j: nat)
    requires i < j < |queue| && queue[i].startTime > queue[j].startTime
    ensures Missed(minute, queue[Due(minute, queue)..])
  {
    var m := Due(minute, queue);
    if i < m {
      PastTaskStays(minute, queue, j);
    } else {
      assert queue[m..][i - m].startTime > queue[m..][j - m].startTime;
    }
  }

  lemma {:induction false} MissedForever(t: Trip)
    requires Missed(t.clock / 60, t.queue)
    ensures Missed(Tick(t).clock / 60, Tick(t).queue)
  {
    if i :| 0 <= i < |t.queue| && t.queue[i].startTime < t.clock / 60 {
      PastTaskStays(t.clock / 60, t.queue, i);
    } else {
      var i, j :| 0 <= i < j < |t.queue| && t.queue[i].startTime > t.queue[j].startTime;
      InversionStays(t.clock / 60, t.queue, i, j);
    }
  }

  lemma {:induction false} MissedNeverEnds(t: Trip, k: nat)
    requires Missed(t.clock / 60, t.queue)
    ensures Missed(Ticks(t, k).clock / 60, Ticks(t, k).queue)
    decreases k
  {
    if k > 0 {
      MissedForever(t);
      MissedNeverEnds(Tick(t), k - 1);
    }
  }

  /** A queue is ever worked off if and only if it is ordered and its first task is not in the
      past of the clock.  Any other queue leaves the traveller on the road for ever. */
  lemma {:induction false} CompletesIffOnTime(t: Trip)
    ensures (exists k :: Ticks(t, k).queue == []) <==> OnTime(t.clock / 60, t.queue)
  {
    if OnTime(t.clock / 60, t.queue) {
      if t.queue == [] {
        assert Ticks(t, 0).queue == [];
      } else {
        Replay(t);
      }
    } else {
      assert Missed(t.clock / 60, t.queue);
      forall k: nat ensures Ticks(t, k).queue != [] {
        MissedNeverEnds(t, k);
      }
    }
  }

  class Customer {
    var m_sysTime: nat
    var m_taskQueue: seq<Task>
    /** The tasks started so far, one status signal each. */
    var m_signals: seq<Fired>

    constructor (time: nat)
      ensures State() == Trip(time, [], [])
    {
      m_sysTime, m_taskQueue, m_signals := time, [], [];
    }

    function State(): Trip
      reads this
    {
      Trip(m_sysTime, m_taskQueue, m_signals)
    }

    predicate IsTaskEmpty()
      reads this
    {
      m_taskQueue == []
    }

    method SetSysTime(time: nat)
      modifies this`m_sysTime
      ensures m_sysTime == time
    {
      m_sysTime := time;
    }

    method AddTask(task: Task)
      modifies this`m_taskQueue
      ensures m_taskQueue == old(m_taskQueue) + [task]
    {
      m_taskQueue := m_taskQueue + [task];
    }

    /** One update.  The loop stops when the queue runs empty. */
    method UpdateStatus()
      modifies this
      ensures State() == Tick(old(State()))
    {
      if m_taskQueue != [] {
        ghost var minute := m_sysTime / 60;
        while m_taskQueue != [] && m_sysTime / 60 == m_taskQueue[0].startTime
          invariant m_sysTime == old(m_sysTime)
          invariant m_taskQueue[Due(minute, m_taskQueue)..] == old(m_taskQueue)[Due(minute, old(m_taskQueue))..]
          invariant m_signals + FiredAt(minute, m_taskQueue[..Due(minute, m_taskQueue)])
            == old(m_signals) + FiredAt(minute, old(m_taskQueue)[..Due(minute, old(m_taskQueue))])
          decreases |m_taskQueue|
        {
          ghost var due := m_taskQueue[..Due(minute, m_taskQueue)];
          assert FiredAt(minute, due) == [Fired(minute, due[0])] + FiredAt(minute, due[1..]);
          m_signals := m_signals + [Fired(m_sysTime / 60, m_taskQueue[0])];
          m_taskQueue := m_taskQueue[1..];
        }
        assert m_taskQueue[..Due(minute, m_taskQueue)] == [];
        m_sysTime := m_sysTime + 36;
      }
    }
  }
}
