/** Whose request an upstream answer is handed to, over whole runs. */
module RelayIsolation {
  import opened HashTables
  import opened DnsRecords
  import opened IdRing
  import opened RelayState

  ghost predicate ValidEvents(es: seq<Event>) {
    forall i :: 0 <= i < |es| ==> ValidEvent(es[i])
  }

  /** The tables after a run. */
  ghost function Run(s: State, es: seq<Event>): (s': State)
    requires Shape(s) && ValidEvents(es)
    ensures Shape(s')
  {
    if es == [] then s else
      var before := Run(s, es[..|es| - 1]);
      StepKeepsShape(before, es[|es| - 1]);
      Step(before, es[|es| - 1]).0
  }

  /** The event takes an ID slot. */
  ghost predicate Allocates(s: State, e: Event)
    requires Shape(s) && ValidEvent(e)
  {
    !s.wild && Accepted(e) && !Step(s, e).0.wild
  }

  /** Rows that differ at most in whether the request has been answered. */
  predicate SameOwner(a: IdRow, b: IdRow) {
    a.(finished := true) == b.(finished := true)
  }

  /** The slot row of an accepted request. */
  function RowOf(e: Event): IdRow
    requires Accepted(e)
  {
    IdRow(e.message.id, e.client, true, e.message.Length(), e.now, e.url.value)
  }

  lemma {:induction false} CacheKeepsIds(s: State, slot: nat, rs: seq<Record>, now: int)
    requires Shape(s) && slot < MAX_AMOUNT
    ensures CacheAll(s, slot, rs, now).ids == s.ids && CacheAll(s, slot, rs, now).idCount == s.idCount
    decreases |rs|
  {
    if rs != [] {
      CacheOneKeepsShape(s, slot, rs[0], now);
      CacheKeepsIds(CacheOne(s, slot, rs[0], now), slot, rs[1..], now);
    }
  }

  /** The whole effect of an event on the ID table. */
  lemma {:induction false} StepOnIds(s: State, e: Event, t: nat)
    requires Shape(s) && ValidEvent(e) && t < MAX_AMOUNT
    ensures Allocates(s, e) ==> Step(s, e).0.idCount == (s.idCount + 1) % MAX_AMOUNT
    ensures !Allocates(s, e) ==> Step(s, e).0.idCount == s.idCount
    ensures SameOwner(Step(s, e).0.ids[t], if Allocates(s, e) && t == s.idCount then RowOf(e) else s.ids[t])
  {
    if !s.wild && e.Response? && e.message.Length() <= 1024 && e.message.id < MAX_AMOUNT && InTime(s, e) {
      var records := Answers(e.message);
      if records.Some? {
        CacheKeepsIds(MarkFinished(s, e.message.id), e.message.id, records.value, e.now);
      }
    }
  }

  /** Which events of the run took a slot. */
  ghost function Taken(s: State, es: seq<Event>): (taken: seq<bool>)
    requires Shape(s) && ValidEvents(es)
    ensures |taken| == |es|
    ensures forall i :: 0 <= i < |es| && taken[i] ==> Accepted(es[i])
  {
    if es == [] then [] else
      var prefix := es[..|es| - 1];
      Taken(s, prefix) + [Allocates(Run(s, prefix), es[|es| - 1])]
  }

  lemma {:induction false} TakenPrefix(s: State, es: seq<Event>, k: nat)
    requires Shape(s) && ValidEvents(es) && k <= |es|
    ensures Taken(s, es[..k]) == Taken(s, es)[..k]
  {
    if k < |es| {
      var prefix := es[..|es| - 1];
      TakenPrefix(s, prefix, k);
      assert prefix[..k] == es[..k];
      assert Taken(s, es)[..|es| - 1] == Taken(s, prefix);
      assert Taken(s, es)[..k] == Taken(s, prefix)[..k];
    } else {
      assert es[..k] == es;
    }
  }

  /** The counter of the tables runs round the ring. */
  lemma {:induction false} CounterAfterRun(s: State, es: seq<Event>)
    requires Shape(s) && ValidEvents(es)
    ensures Run(s, es).idCount == Slot(s.idCount, Taken(s, es))
  {
    hide Step, Slot;
    if es == [] {
      FirstSlot(s.idCount);
    } else {
      var prefix := es[..|es| - 1];
      CounterAfterRun(s, prefix);
      SlotMoves(s.idCount, Taken(s, es));
      StepOnIds(Run(s, prefix), es[|es| - 1], 0);
      assert Taken(s, es)[..|es| - 1] == Taken(s, prefix);
    }
  }

  /** Every slot holds the request of the last event that took it. */
  lemma {:induction false} SlotsAfterRun(s: State, es: seq<Event>, t: nat)
    requires Shape(s) && ValidEvents(es) && t < MAX_AMOUNT
    ensures var k := Last(s.idCount, Taken(s, es), t);
      SameOwner(Run(s, es).ids[t], if k >= 0 then RowOf(es[k]) else s.ids[t])
  {
    hide Step;
    if es != [] {
      var prefix := es[..|es| - 1];
      SlotsAfterRun(s, prefix, t);
      CounterAfterRun(s, prefix);
      StepOnIds(Run(s, prefix), es[|es| - 1], t);
      assert Taken(s, es)[..|es| - 1] == Taken(s, prefix);
    }
  }

  /** The event at `k` took slot `t`. */
  ghost predicate Takes(s: State, es: seq<Event>, k: nat, t: nat)
    requires Shape(s) && ValidEvents(es)
  {
    k < |es| && Allocates(Run(s, es[..k]), es[k]) && Run(s, es[..k]).idCount == t
  }

  lemma {:induction false} TakesOnRing(s: State, es: seq<Event>, k: nat, t: nat)
    requires Shape(s) && ValidEvents(es) && Takes(s, es, k, t)
    ensures Taken(s, es)[k] && Slot(s.idCount, Taken(s, es)[..k]) == t
  {
    TakenPrefix(s, es, k);
    TakenPrefix(s, es, k + 1);
    assert es[..k + 1][..k] == es[..k];
    assert Taken(s, es[..k + 1])[k] == Taken(s, es)[k];
    CounterAfterRun(s, es[..k]);
  }

  /** Requests taken up by the run. */
  ghost function Allocs(s: State, es: seq<Event>): nat
    requires Shape(s) && ValidEvents(es)
  {
    Count(Taken(s, es))
  }

  /** Requests taken up after event `k`. */
  ghost function AllocsAfter(s: State, es: seq<Event>, k: nat): int
    requires Shape(s) && ValidEvents(es) && k < |es|
  {
    Allocs(s, es) - Allocs(s, es[..k + 1])
  }

  /** An accepted upstream answer goes to the client whose request last took the slot it names,
      with that client's own identifier and otherwise unchanged. */
  lemma {:induction false} AnswerGoesToLastOwner(s: State, es: seq<Event>, e: Event)
    requires Shape(s) && ValidEvents(es) && ValidEvent(e) && e.Response?
    requires Step(Run(s, es), e).1.Deliver?
    ensures e.message.id < MAX_AMOUNT
    ensures var k := Last(s.idCount, Taken(s, es), e.message.id);
      && (k >= 0 ==> Step(Run(s, es), e).1 == Deliver(es[k].client, e.message.(id := es[k].message.id)))
      && (k < 0 ==> s.ids[e.message.id].joinTime != 0)
  {
    var now := Run(s, es);
    var slot := e.message.id;
    SlotsAfterRun(s, es, slot);
    CacheKeepsIds(MarkFinished(now, slot), slot, Answers(e.message).value, e.now);
  }

  lemma {:induction false} LoadShape(s: State, lines: seq<string>)
    requires Shape(s)
    ensures Shape(Load(s, lines)) && Load(s, lines).ids == s.ids && Load(s, lines).idCount == s.idCount
    decreases |lines|
  {
    if lines != [] {
      LoadKeepsShape(s, lines[0]);
      LoadShape(LoadLine(s, lines[0]), lines[1..]);
    }
  }

  /** The tables a run starts with. */
  ghost function Loaded(lines: seq<string>): (s: State)
    ensures Shape(s)
  {
    LoadShape(Boot(), lines);
    Load(Boot(), lines)
  }

  /** From the start of the program, an answer is delivered only under a slot that some request of
      the run took; one under any other slot is late. */
  lemma {:induction false} OnlyAskedForIsDelivered(lines: seq<string>, es: seq<Event>, e: Event)
    requires ValidEvents(es) && ValidEvent(e) && e.Response?
    requires Step(Run(Loaded(lines), es), e).1.Deliver?
    ensures exists k: nat ::
      k < |es| && Takes(Loaded(lines), es, k, e.message.id)
      && Step(Run(Loaded(lines), es), e).1 == Deliver(es[k].client, e.message.(id := es[k].message.id))
  {
    var s := Loaded(lines);
    LoadShape(Boot(), lines);
    AnswerGoesToLastOwner(s, es, e);
    var k := Last(s.idCount, Taken(s, es), e.message.id);
    LastTakes(s, es, e.message.id);
  }

  lemma {:induction false} LastTakes(s: State, es: seq<Event>, t: nat)
    requires Shape(s) && ValidEvents(es)
    ensures var k := Last(s.idCount, Taken(s, es), t); k >= 0 ==> Takes(s, es, k, t)
  {
    hide Step;
    if es != [] {
      var prefix := es[..|es| - 1];
      LastTakes(s, prefix, t);
      CounterAfterRun(s, prefix);
      assert Taken(s, es)[..|es| - 1] == Taken(s, prefix);
      var k := Last(s.idCount, Taken(s, es), t);
      if 0 <= k < |es| - 1 { assert prefix[..k] == es[..k]; }
    }
  }

  /** Transaction isolation.  An accepted answer under the identifier given to the request of
      event `k` goes back to that client with its own identifier if fewer than 1024 requests were
      taken up since; otherwise it goes to one that came later. */
  lemma {:induction false} Isolation(s: State, es: seq<Event>, k: nat, e: Event)
    requires Shape(s) && ValidEvents(es) && ValidEvent(e) && e.Response?
    requires Takes(s, es, k, e.message.id)
    requires Step(Run(s, es), e).1.Deliver?
    ensures AllocsAfter(s, es, k) < MAX_AMOUNT ==>
      Step(Run(s, es), e).1 == Deliver(es[k].client, e.message.(id := es[k].message.id))
    ensures AllocsAfter(s, es, k) >= MAX_AMOUNT ==>
      exists j :: k < j < |es| && Accepted(es[j])
        && Step(Run(s, es), e).1 == Deliver(es[j].client, e.message.(id := es[j].message.id))
  {
    TakesOnRing(s, es, k, e.message.id);
    KeepsSlotIff(s.idCount, Taken(s, es), k);
    TakenPrefix(s, es, k + 1);
    AnswerGoesToLastOwner(s, es, e);
  }

  /** Identifiers of requests fewer than 1024 allocations apart differ. */
  lemma {:induction false} NearbyIdsDiffer(s: State, es: seq<Event>, i: nat, j: nat, t: nat, t': nat)
    requires Shape(s) && ValidEvents(es) && i < j
    requires Takes(s, es, i, t) && Takes(s, es, j, t')
    requires Allocs(s, es[..j]) - Allocs(s, es[..i]) < MAX_AMOUNT
    ensures t != t'
  {
    TakesOnRing(s, es, i, t);
    TakesOnRing(s, es, j, t');
    TakenPrefix(s, es, i);
    TakenPrefix(s, es, j);
    NearbySlotsDiffer(s.idCount, Taken(s, es), i, j);
  }
}
