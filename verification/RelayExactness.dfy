/** Exactly when the hash table behaves like a simple cache: on the runs that are clean at every
    step, and on no others. */
module RelayExactness {
  import opened HashChains
  import opened HashTables
  import opened DnsRecords
  import opened RelayState
  import opened RelayIsolation
  import opened RelayOutputs
  import opened RelayCache
  import opened RelayRuns
  import opened RelaySlots
  import opened RelayRefinement
  import opened Options

  /** The event asks the tables only for what they do right: a removal takes no entry along that is
      missed, the slot taken is free, and a bucket to be extended hides no vacant node. */
  ghost predicate Clean(s: State, e: Event)
    requires Shape(s) && ValidEvent(e)
  {
    && (Accepted(e) && Expired(s, e) ==> LossIsHarmless(s, e.url.value))
    && Safe(s, true, e)
    && (TakenIn(s, e) && Where(s, s.ids[e.message.id].url).None? && HasAddress(Answers(e.message).value)
        ==> Open(s.table[BucketOf(s.ids[e.message.id].url)]))
  }

  // ---------------------------------------------------------------- requests

  lemma {:induction false} DroppedAgreesIff(s: State, g: set<DnsRow>, m: Cache, e: Event)
    requires Sound(s, true, g) && Agree(s, m) && !s.wild && ValidEvent(e) && Accepted(e) && !Step(s, e).0.wild
    ensures Sound(Dropped(s, e), true, g)
    ensures Agree(Dropped(s, e), SimpleStep(m, s, e)) <==> (Expired(s, e) ==> LossIsHarmless(s, e.url.value))
  {
    hide LossIsHarmless, Removed, GoodBucket, Step;
    var url, m' := e.url.value, SimpleStep(m, s, e);
    RequestInTwo(s, e);
    assert Lookup(s, url) == Get(m, url);
    if Expired(s, e) {
      RemovedIsSound(s, true, g, url);
      RemovalDropsOneIff(s, g, url);
      assert forall n :: Lookup(s, n) == Get(m, n);
      assert forall n :: Get(m', n) == if n == url then None else Get(m, n);
      assert Agree(Dropped(s, e), m') <==> DropsOnly(s, Dropped(s, e), url);
    }
  }

  /** Taking a slot does not make up for an entry that was lost before. */
  lemma {:induction false} LossRemains(s: State, g: set<DnsRow>, m: Cache, e: Event, finished: bool)
    requires Sound(s, true, g) && Agree(s, m) && ValidEvent(e) && Accepted(e) && Expired(s, e)
    requires !Removed(s, e.url.value).wild && !LossIsHarmless(s, e.url.value)
    ensures Shape(Allocate(Dropped(s, e), e, finished))
    ensures !Agree(Allocate(Dropped(s, e), e, finished), SimpleStep(m, s, e))
  {
    hide LossIsHarmless, Removed, GoodBucket;
    var url, d := e.url.value, Dropped(s, e);
    var n := HarmfulLossShows(s, g, url);
    RemovedIsSound(s, true, g, url);
    if NamedBySlot(d, n, d.idCount) {
      NameOfSlotIsLost(d, g, e, finished, n);
    } else {
      OtherNameStays(d, g, e, finished, n);
    }
    assert Lookup(s, n) == Get(m, n) == Get(SimpleStep(m, s, e), n);
  }

  lemma {:induction false} RequestAgreesIffClean(s: State, g: set<DnsRow>, m: Cache, e: Event)
    requires Sound(s, true, g) && Agree(s, m) && !s.wild && ValidEvent(e) && e.Request? && !Step(s, e).0.wild
    ensures Shape(Step(s, e).0)
    ensures Agree(Step(s, e).0, SimpleStep(m, s, e)) <==> Clean(s, e)
  {
    hide LossIsHarmless, Removed, GoodBucket, OnMiss, Lookup;
    if Accepted(e) {
      var d, m', finished := Dropped(s, e), SimpleStep(m, s, e), !Step(s, e).1.Forward?;
      RequestInTwo(s, e);
      DroppedAgreesIff(s, g, m, e);
      if Agree(d, m') {
        TakingASlotIsHarmlessIff(d, g, e, finished);
        SameAsBefore(d, Allocate(d, e, finished), m');
      } else {
        LossRemains(s, g, m, e, finished);
      }
      SlotOfDropped(s, e);
    }
  }

  lemma {:induction false} SlotOfDropped(s: State, e: Event)
    requires Shape(s) && Accepted(e)
    ensures Dropped(s, e).idCount == s.idCount
  {
  }

  lemma {:induction false} SameAsBefore(s: State, s': State, m: Cache)
    requires Shape(s) && Shape(s') && Agree(s, m)
    ensures Agree(s', m) <==> forall n :: Lookup(s', n) == Lookup(s, n)
  {
    hide Lookup;
    assert forall n :: Lookup(s, n) == Get(m, n);
  }

  // ---------------------------------------------------------------- answers

  lemma {:induction false} AnswersRefine(s: State, g: set<DnsRow>, m: Cache, slot: nat, rs: seq<Record>, now: int)
    requires Sound(s, true, g) && Agree(s, m) && slot < MAX_AMOUNT && !s.wild
    requires Where(s, s.ids[slot].url).None? && HasAddress(rs) ==> Open(s.table[BucketOf(s.ids[slot].url)])
    requires !CacheAll(s, slot, rs, now).wild && CacheAll(s, slot, rs, now).next <= 2 * MAX_AMOUNT
    ensures Agree(CacheAll(s, slot, rs, now), AddAll(m, s.ids[slot].url, rs, now))
    decreases |rs|
  {
    hide Open, GoodBucket, InsertRow, RowFor;
    if rs != [] {
      var url := s.ids[slot].url;
      var s' := CacheOne(s, slot, rs[0], now);
      assert Lookup(s, url) == Get(m, url);
      CacheOneKeepsShape(s, slot, rs[0], now);
      NextGrows(s', slot, rs[1..], now);
      CacheOneKeepsSound(s, true, g, slot, rs[0], now);
      SlotStays(s, slot, rs[0], now);
      var g' := g + if rs[0].rtype == TYPE_A then {RowFor(url, rs[0], now)} else {};
      var m' := if rs[0].rtype == TYPE_A && url !in m then m[url := RowFor(url, rs[0], now)] else m;
      if rs[0].rtype == TYPE_A && Where(s, url).None? {
        forall n ensures Lookup(s', n) == Get(m', n) {
          assert Lookup(s, n) == Get(m, n);
          AnswerAddsOne(s, g, slot, rs[0], now, n);
        }
        assert Lookup(s', url) == Get(m', url);
      }
      AnswersRefine(s', g', m', slot, rs[1..], now);
    }
  }

  lemma {:induction false} SlotStays(s: State, slot: nat, r: Record, now: int)
    requires Shape(s) && slot < MAX_AMOUNT
    ensures CacheOne(s, slot, r, now).ids == s.ids
  {
  }

  lemma {:induction false} AddAllHas(m: Cache, url: string, rs: seq<Record>, now: int)
    ensures url in m || HasAddress(rs) ==> url in AddAll(m, url, rs, now)
    decreases |rs|
  {
    if rs != [] {
      AddAllHas(if rs[0].rtype == TYPE_A && url !in m then m[url := RowFor(url, rs[0], now)] else m, url, rs[1..], now);
    }
  }

  /** Into a bucket with a vacant node behind its head no answer ever gets. */
  lemma {:induction false} BlockedStays(s: State, g: set<DnsRow>, slot: nat, rs: seq<Record>, now: int)
    requires Sound(s, true, g) && slot < MAX_AMOUNT && Where(s, s.ids[slot].url).None? && !s.wild
    requires !Open(s.table[BucketOf(s.ids[slot].url)])
    requires !CacheAll(s, slot, rs, now).wild && CacheAll(s, slot, rs, now).next <= 2 * MAX_AMOUNT
    ensures Lookup(CacheAll(s, slot, rs, now), s.ids[slot].url).None?
    decreases |rs|
  {
    if rs != [] {
      var url := s.ids[slot].url;
      var b, s' := BucketOf(url), CacheOne(s, slot, rs[0], now);
      CacheOneKeepsShape(s, slot, rs[0], now);
      NextGrows(s', slot, rs[1..], now);
      CacheOneKeepsSound(s, true, g, slot, rs[0], now);
      if rs[0].rtype == TYPE_A {
        AnswerAddsOne(s, g, slot, rs[0], now, url);
        assert GoodChain(s.table[b]);
        InsertIsSeen(s.table[b], s.next, Url(slot), s.rowCount);
      }
      BlockedStays(s', g + if rs[0].rtype == TYPE_A then {RowFor(url, rs[0], now)} else {}, slot, rs[1..], now);
    }
  }

  lemma {:induction false} MarkedAgrees(s: State, g: set<DnsRow>, slot: nat)
    requires Sound(s, true, g) && slot < MAX_AMOUNT
    ensures Sound(MarkFinished(s, slot), true, g)
    ensures forall url :: Lookup(MarkFinished(s, slot), url) == Lookup(s, url)
  {
    FinishKeepsSound(s, true, g, slot);
    forall url ensures Lookup(MarkFinished(s, slot), url) == Lookup(s, url) {
      LookupIsFindRow(s, g, url);
      LookupIsFindRow(MarkFinished(s, slot), g, url);
    }
  }

  lemma {:induction false} ResponseAgreesIffClean(s: State, g: set<DnsRow>, m: Cache, e: Event)
    requires Sound(s, true, g) && Agree(s, m) && !s.wild && ValidEvent(e) && e.Response?
    requires !Step(s, e).0.wild && Step(s, e).0.next <= 2 * MAX_AMOUNT
    ensures Shape(Step(s, e).0)
    ensures Agree(Step(s, e).0, SimpleStep(m, s, e)) <==> Clean(s, e)
  {
    hide Open, GoodBucket, CacheAll, AddAll, Answers;
    if TakenIn(s, e) {
      var slot, rs := e.message.id, Answers(e.message).value;
      var url, marked := s.ids[slot].url, MarkFinished(s, slot);
      MarkedAgrees(s, g, slot);
      assert forall n :: Lookup(s, n) == Get(m, n);
      assert Agree(marked, m) && Lookup(marked, url) == Lookup(s, url);
      if Clean(s, e) {
        AnswersRefine(marked, g, m, slot, rs, e.now);
      } else {
        BlockedStays(marked, g, slot, rs, e.now);
        AddAllHas(m, url, rs, e.now);
        assert Lookup(Step(s, e).0, url) != Get(SimpleStep(m, s, e), url);
      }
    }
  }

  /** One step: the lookups go on agreeing with the simple cache exactly when the step is clean. */
  lemma {:induction false} StepAgreesIffClean(s: State, g: set<DnsRow>, m: Cache, e: Event)
    requires Sound(s, true, g) && Agree(s, m) && !s.wild && ValidEvent(e)
    requires !Step(s, e).0.wild && Step(s, e).0.next <= 2 * MAX_AMOUNT
    ensures Shape(Step(s, e).0)
    ensures Agree(Step(s, e).0, SimpleStep(m, s, e)) <==> Clean(s, e)
  {
    hide Step, Clean, Agree, SimpleStep, GoodBucket;
    if e.Request? { RequestAgreesIffClean(s, g, m, e); } else { ResponseAgreesIffClean(s, g, m, e); }
  }

  // ---------------------------------------------------------------- what one answer caches

  function FirstAddress(rs: seq<Record>): Option<Record> {
    if rs == [] then None else if rs[0].rtype == TYPE_A then Some(rs[0]) else FirstAddress(rs[1..])
  }

  function Addresses(rs: seq<Record>): nat {
    if rs == [] then 0 else (if rs[0].rtype == TYPE_A then 1 else 0) + Addresses(rs[1..])
  }

  lemma {:induction false} NothingNewStays(s: State, slot: nat, rs: seq<Record>, now: int)
    requires Shape(s) && slot < MAX_AMOUNT && (Where(s, s.ids[slot].url).Some? || Addresses(rs) == 0)
    ensures CacheAll(s, slot, rs, now) == s
    decreases |rs|
  {
    if rs != [] { NothingNewStays(s, slot, rs[1..], now); }
  }

  lemma {:induction false} AddressesAreWritten(s: State, slot: nat, rs: seq<Record>, now: int)
    requires Shape(s) && slot < MAX_AMOUNT && Where(s, s.ids[slot].url).None? && Addresses(rs) > 0
    requires !CacheAll(s, slot, rs, now).wild
    ensures CacheAll(s, slot, rs, now).next > s.next
    decreases |rs|
  {
    CacheOneKeepsShape(s, slot, rs[0], now);
    NextGrows(CacheOne(s, slot, rs[0], now), slot, rs[1..], now);
    if rs[0].rtype != TYPE_A { AddressesAreWritten(s, slot, rs[1..], now); }
  }

  /** An answer for a name that is not cached caches its first address and nothing else, exactly
      when the bucket hides no vacant node or the answer holds a single address. */
  lemma {:induction false} FirstAddressIff(s: State, g: set<DnsRow>, slot: nat, rs: seq<Record>, now: int)
    requires Sound(s, true, g) && slot < MAX_AMOUNT && !s.wild
    requires Where(s, s.ids[slot].url).None? && FirstAddress(rs).Some?
    requires !CacheAll(s, slot, rs, now).wild && CacheAll(s, slot, rs, now).next <= 2 * MAX_AMOUNT
    ensures CacheAll(s, slot, rs, now) == CacheOne(s, slot, FirstAddress(rs).value, now)
      <==> (Open(s.table[BucketOf(s.ids[slot].url)]) || Addresses(rs) == 1)
    decreases |rs|
  {
    var url := s.ids[slot].url;
    var s' := CacheOne(s, slot, rs[0], now);
    CacheOneKeepsShape(s, slot, rs[0], now);
    NextGrows(s', slot, rs[1..], now);
    if rs[0].rtype != TYPE_A {
      FirstAddressIff(s, g, slot, rs[1..], now);
    } else {
      AnswerAddsOne(s, g, slot, rs[0], now, url);
      LookupIsFindRow(s, g, url);
      if Open(s.table[BucketOf(url)]) || Addresses(rs[1..]) == 0 {
        NothingNewStays(s', slot, rs[1..], now);
      } else {
        AddressesAreWritten(s', slot, rs[1..], now);
      }
    }
  }

  // ---------------------------------------------------------------- runs

  ghost predicate CleanRun(s: State, es: seq<Event>)
    requires Shape(s) && ValidEvents(es)
  {
    es != [] ==>
      var prefix := es[..|es| - 1];
      CleanRun(s, prefix) && Clean(Run(s, prefix), es[|es| - 1])
  }

  ghost function SimpleRun(m: Cache, s: State, es: seq<Event>): Cache
    requires Shape(s) && ValidEvents(es)
  {
    if es == [] then m else
      var prefix := es[..|es| - 1];
      SimpleStep(SimpleRun(m, s, prefix), Run(s, prefix), es[|es| - 1])
  }

  /** The lookups agree with the simple cache after every event of the run. */
  ghost predicate Follows(s: State, m: Cache, es: seq<Event>)
    requires Shape(s) && ValidEvents(es)
  {
    && Agree(Run(s, es), SimpleRun(m, s, es))
    && (es != [] ==> Follows(s, m, es[..|es| - 1]))
  }

  lemma {:induction false} CleanIsSafe(s: State, es: seq<Event>)
    requires Shape(s) && ValidEvents(es) && CleanRun(s, es)
    ensures SafeRun(s, true, es)
  {
    hide Safe, Expired, LossIsHarmless, TakenIn, Open;
    if es != [] { CleanIsSafe(s, es[..|es| - 1]); }
  }

  /** Exact refinement.  Over a run of any number of requests the lookups agree with a simple cache
      after every event if and only if every event is clean. */
  lemma {:induction false} FollowsIffClean(s: State, g: set<DnsRow>, m: Cache, es: seq<Event>)
    requires Sound(s, true, g) && Agree(s, m) && ValidEvents(es) && Bounded(s, es)
    ensures Follows(s, m, es) <==> CleanRun(s, es)
    decreases |es|
  {
    hide Step, Clean, Agree, SimpleStep, GoodBucket;
    if es != [] {
      var prefix, e := es[..|es| - 1], es[|es| - 1];
      BoundedPrefix(s, es);
      FollowsIffClean(s, g, m, prefix);
      if CleanRun(s, prefix) {
        CleanIsSafe(s, prefix);
        RunKeepsSound(s, true, g, prefix);
        StepAgreesIffClean(Run(s, prefix), Genuine(s, g, prefix), SimpleRun(m, s, prefix), e);
      }
    }
  }

  /** The same from the start, for a file of any content: the lookups follow the simple cache filled
      from it through a whole run if and only if the run is clean. */
  lemma {:induction false} FileRunFollowsIffClean(lines: seq<string>, es: seq<Event>)
    requires !Loaded(lines).wild && ValidEvents(es) && Bounded(Loaded(lines), es)
    ensures Follows(Loaded(lines), FileCache(map[], lines), es) <==> CleanRun(Loaded(lines), es)
  {
    FileIsServed(lines);
    FollowsIffClean(Loaded(lines), FileRows(lines), FileCache(map[], lines), es);
  }

  /** What a simple cache answers. */
  ghost function SimpleAnswer(m: Cache, e: Event): Option<DnsRow>
    requires Accepted(e)
  {
    if e.url.value in m && m[e.url.value].ttl > e.now then Some(m[e.url.value]) else None
  }

  /** Cache refinement.  After a clean run a request that leaves room for the reply is answered on
      the spot exactly when a simple cache, filled from the file and fed the same events, holds an
      unexpired row for it, and with that row. */
  lemma {:induction false} ServedFromSimpleCache(lines: seq<string>, es: seq<Event>, e: Event)
    requires !Loaded(lines).wild && ValidEvents(es) && Bounded(Loaded(lines), es) && CleanRun(Loaded(lines), es)
    requires ValidEvent(e) && Accepted(e) && QueryType(e.message) != TYPE_PTR
    ensures var s := Loaded(lines);
      var row := SimpleAnswer(SimpleRun(FileCache(map[], lines), s, es), e);
      var out := Step(Run(s, es), e).1;
      && (out.Reply? <==> row.Some? && Fits(e.message))
      && (out.Reply? ==> out == Reply(e.client, LocalReply(e.message, row.value)))
      && (out.Reply? ==> AnsweredFrom(out, e, row.value.data))
  {
    hide CleanRun, SimpleRun, Load, AnsweredFrom;
    FileRunFollowsIffClean(lines, es);
    var s := Loaded(lines);
    var m := SimpleRun(FileCache(map[], lines), s, es);
    assert Agree(Run(s, es), m);
    assert Lookup(Run(s, es), e.url.value) == Get(m, e.url.value);
    if e.url.value in m { ReplyIsAnswer(e, m[e.url.value]); }
  }
}
