/** Runs of the relay: whatever entries the hash table loses, the addresses served are genuine, as
    long as no ID slot is given a name that clashes with an entry taking its name from it. */
module RelayRuns {
  import opened HashChains
  import opened HashTables
  import opened DnsRecords
  import opened RelayState
  import opened RelayIsolation
  import opened RelayOutputs
  import opened RelayCache

  // ---------------------------------------------------------------- writing a row

  /** The new row's name is not yet live in its bucket, or only in rows of the file, like the new
      one. */
  ghost predicate NewName(s: State, row: DnsRow, key: KeyRef)
    requires |s.table| == MAX_AMOUNT
  {
    var live := Live(s.table[BucketOf(row.domain)]);
    forall i :: 0 <= i < |live| && Names(s.rows, live[i], row.domain) ==> key.Domain? && live[i].key.Domain?
  }

  ghost predicate KeyShows(s: State, key: KeyRef, row: DnsRow)
    requires |s.ids| == MAX_AMOUNT
  {
    match key
    case Domain(r) => r == s.rowCount && row.ttl == ETERNAL
    case Url(t) => t < MAX_AMOUNT && s.ids[t].url == row.domain
  }

  function Written(s: State, row: DnsRow, key: KeyRef, rowCount: nat): State
    requires Shape(s) && s.rowCount < MAX_AMOUNT
  {
    InsertRow(s, row, key).(rowCount := rowCount)
  }

  lemma {:induction false} WrittenLive(s: State, row: DnsRow, key: KeyRef, rowCount: nat)
    requires Shape(s) && s.rowCount < MAX_AMOUNT
    ensures var live, live' := Live(s.table[BucketOf(row.domain)]),
        Live(Written(s, row, key, rowCount).table[BucketOf(row.domain)]);
      live' == live || live' == live + [Entry(key, s.rowCount)]
  {
    InsertIsSeen(s.table[BucketOf(row.domain)], s.next, key, s.rowCount);
  }

  lemma {:induction false} WrittenEntries(s: State, exact: bool, g: set<DnsRow>, row: DnsRow, key: KeyRef,
                                          rowCount: nat, i: nat)
    requires Sound(s, exact, g) && s.next < 2 * MAX_AMOUNT && KeyShows(s, key, row)
    requires i < |Live(Written(s, row, key, rowCount).table[BucketOf(row.domain)])|
    ensures var s', b := Written(s, row, key, rowCount), BucketOf(row.domain);
      GoodEntry(s', exact, g + {row}, b, Live(s'.table[b])[i])
  {
    var b := BucketOf(row.domain);
    WrittenLive(s, row, key, rowCount);
    LiveEntriesAreGood(s, exact, g, b);
    var live := Live(s.table[b]);
    if i < |live| { assert GoodEntry(s, exact, g, b, live[i]); }
  }

  lemma {:induction false} WrittenIds(s: State, exact: bool, g: set<DnsRow>, row: DnsRow, key: KeyRef, rowCount: nat)
    requires Sound(s, exact, g) && s.next < 2 * MAX_AMOUNT
    ensures var s' := Written(s, row, key, rowCount);
      var chain := s'.table[BucketOf(row.domain)];
      DistinctIds(chain) && forall i :: 0 <= i < |chain| ==> chain[i].id < s'.next
  {
    LiveEntriesAreGood(s, exact, g, BucketOf(row.domain));
  }

  lemma {:induction false} WrittenUnique(s: State, g: set<DnsRow>, row: DnsRow, key: KeyRef, rowCount: nat)
    requires Sound(s, true, g) && s.next < 2 * MAX_AMOUNT && NewName(s, row, key)
    ensures var s' := Written(s, row, key, rowCount); Unique(s'.rows, Live(s'.table[BucketOf(row.domain)]))
  {
    var b := BucketOf(row.domain);
    var s' := Written(s, row, key, rowCount);
    LiveEntriesAreGood(s, true, g, b);
    WrittenLive(s, row, key, rowCount);
    var live, live' := Live(s.table[b]), Live(s'.table[b]);
    forall i, j | 0 <= i < j < |live'| && SameName(s'.rows, live'[i], live'[j])
      ensures live'[i].key.Domain? && live'[j].key.Domain?
    {
      assert live'[i] == live[i] && GoodEntry(s, true, g, b, live[i]);
      if j < |live| {
        assert live'[j] == live[j] && GoodEntry(s, true, g, b, live[j]);
        assert SameName(s.rows, live[i], live[j]);
      } else {
        assert Names(s.rows, live[i], row.domain);
      }
    }
  }

  lemma {:induction false} WriteKeepsSound(s: State, exact: bool, g: set<DnsRow>, row: DnsRow, key: KeyRef,
                                           rowCount: nat)
    requires Sound(s, exact, g) && s.next < 2 * MAX_AMOUNT && KeyShows(s, key, row)
    requires exact ==> NewName(s, row, key)
    requires rowCount <= MAX_AMOUNT && (s.next + 1 < 2 * MAX_AMOUNT ==> rowCount == s.next + 1 - MAX_AMOUNT)
    ensures Sound(Written(s, row, key, rowCount), exact, g + {row})
  {
    hide Live, Unique, ShowsName, GoodEntry, Insert;
    var s' := Written(s, row, key, rowCount);
    var b := BucketOf(row.domain);
    WrittenIds(s, exact, g, row, key, rowCount);
    forall i | 0 <= i < |Live(s'.table[b])| ensures GoodEntry(s', exact, g + {row}, b, Live(s'.table[b])[i]) {
      WrittenEntries(s, exact, g, row, key, rowCount, i);
    }
    if exact { WrittenUnique(s, g, row, key, rowCount); }
    forall c | 0 <= c < MAX_AMOUNT ensures GoodBucket(s', exact, g + {row}, c) {
      if c != b {
        LiveEntriesAreGood(s, exact, g, c);
        OtherBucket(s, s', exact, g, g + {row}, c);
      }
    }
    WrittenShape(s, row, key, rowCount);
  }

  lemma {:induction false} WrittenShape(s: State, row: DnsRow, key: KeyRef, rowCount: nat)
    requires Shape(s) && s.rowCount < MAX_AMOUNT && rowCount <= MAX_AMOUNT && InRange(Entry(key, s.rowCount))
    ensures Shape(Written(s, row, key, rowCount))
  {
  }

  // ---------------------------------------------------------------- slots not taken yet

  /** The first `a` slots have been taken, the ring of slots has not wrapped, and no live entry takes
      its name from a slot that has not been taken. */
  ghost predicate Fresh(s: State, a: nat) {
    && Shape(s) && a <= MAX_AMOUNT && (a < MAX_AMOUNT ==> s.idCount == a)
    && (forall t :: a <= t < MAX_AMOUNT ==> s.ids[t].joinTime == 0)
    && (forall b :: 0 <= b < MAX_AMOUNT ==> FreshKeys(Live(s.table[b]), a))
  }

  predicate FreshKeys(live: seq<Content>, a: nat) {
    forall i :: 0 <= i < |live| && live[i].Entry? && live[i].key.Url? ==> live[i].key.slot < a
  }

  lemma {:induction false} BootIsFresh()
    ensures Fresh(Boot(), 0)
  {
    assert forall b :: 0 <= b < MAX_AMOUNT ==> Live(Boot().table[b]) == [];
  }

  lemma {:induction false} WriteKeepsFresh(s: State, a: nat, row: DnsRow, key: KeyRef, rowCount: nat)
    requires Fresh(s, a) && s.rowCount < MAX_AMOUNT && rowCount <= MAX_AMOUNT
    requires match key case Domain(r) => r < MAX_AMOUNT case Url(t) => t < a
    ensures Fresh(Written(s, row, key, rowCount), a)
  {
    hide Insert;
    var s' := Written(s, row, key, rowCount);
    WrittenShape(s, row, key, rowCount);
    forall b | 0 <= b < MAX_AMOUNT ensures FreshKeys(Live(s'.table[b]), a) {
      assert FreshKeys(Live(s.table[b]), a);
      if b == BucketOf(row.domain) { WrittenLive(s, row, key, rowCount); }
    }
  }

  // ---------------------------------------------------------------- loading

  function LineRow(line: string): DnsRow
    requires ParseLine(line).Some?
  {
    DnsRow(TYPE_A, ETERNAL, ParseLine(line).value.0, ParseLine(line).value.1)
  }

  /** The rows of a file. */
  ghost function FileRows(lines: seq<string>): set<DnsRow> {
    if lines == [] then {} else
      (if ParseLine(lines[0]).None? then {} else {LineRow(lines[0])}) + FileRows(lines[1..])
  }

  /** Tables into which only a file has been read. */
  ghost predicate Loading(s: State, g: set<DnsRow>) {
    Sound(s, true, g) && Fresh(s, 0) && !s.wild && s.rowCount == s.next - MAX_AMOUNT
  }

  lemma {:induction false} LineKeepsLoading(s: State, g: set<DnsRow>, line: string)
    requires Loading(s, g) && !LoadLine(s, line).wild
    ensures ParseLine(line).Some? && s.next < 2 * MAX_AMOUNT
    ensures LoadLine(s, line) == Written(s, LineRow(line), Domain(s.rowCount), s.rowCount + 1)
    ensures Loading(LoadLine(s, line), g + {LineRow(line)})
  {
    var row := LineRow(line);
    NewLine(s, row);
    WriteKeepsSound(s, true, g, row, Domain(s.rowCount), s.rowCount + 1);
    WriteKeepsFresh(s, 0, row, Domain(s.rowCount), s.rowCount + 1);
  }

  lemma {:induction false} NewLine(s: State, row: DnsRow)
    requires Fresh(s, 0)
    ensures NewName(s, row, Domain(s.rowCount))
  {
    assert FreshKeys(Live(s.table[BucketOf(row.domain)]), 0);
  }

  lemma {:induction false} LoadSplits(s: State, lines: seq<string>)
    requires Shape(s) && !s.wild && lines != [] && !Load(s, lines).wild
    ensures Shape(LoadLine(s, lines[0])) && !LoadLine(s, lines[0]).wild
    ensures Load(s, lines) == Load(LoadLine(s, lines[0]), lines[1..])
  {
    LoadKeepsShape(s, lines[0]);
  }

  lemma {:induction false} LoadKeepsSound(s: State, g: set<DnsRow>, lines: seq<string>)
    requires Loading(s, g) && !Load(s, lines).wild
    ensures Loading(Load(s, lines), g + FileRows(lines))
    decreases |lines|
  {
    hide GoodBucket, FreshKeys;
    if lines == [] {
      assert g + FileRows(lines) == g;
    } else {
      LoadSplits(s, lines);
      LineKeepsLoading(s, g, lines[0]);
      LoadKeepsSound(LoadLine(s, lines[0]), g + {LineRow(lines[0])}, lines[1..]);
      assert g + {LineRow(lines[0])} + FileRows(lines[1..]) == g + FileRows(lines);
    }
  }

  lemma {:induction false} LoadedIsSound(lines: seq<string>)
    requires !Loaded(lines).wild
    ensures Loading(Loaded(lines), FileRows(lines))
  {
    BootIsSound();
    BootIsFresh();
    LoadKeepsSound(Boot(), {}, lines);
    assert {} + FileRows(lines) == FileRows(lines);
  }

  // ---------------------------------------------------------------- upstream answers

  /** The rows an answer section can contribute for `url`. */
  ghost function RowsFor(url: string, rs: seq<Record>, now: int): set<DnsRow> {
    if rs == [] then {} else
      (if rs[0].rtype == TYPE_A then {RowFor(url, rs[0], now)} else {}) + RowsFor(url, rs[1..], now)
  }

  lemma {:induction false} BiggerIsSound(s: State, exact: bool, g: set<DnsRow>, g': set<DnsRow>)
    requires Sound(s, exact, g) && g <= g'
    ensures Sound(s, exact, g')
  {
    forall b | 0 <= b < MAX_AMOUNT ensures GoodBucket(s, exact, g', b) {
      LiveEntriesAreGood(s, exact, g, b);
      OtherBucket(s, s, exact, g, g', b);
    }
  }

  lemma {:induction false} CacheOneKeepsSound(s: State, exact: bool, g: set<DnsRow>, slot: nat, r: Record, now: int)
    requires Sound(s, exact, g) && slot < MAX_AMOUNT && !CacheOne(s, slot, r, now).wild
    requires CacheOne(s, slot, r, now).next <= 2 * MAX_AMOUNT
    ensures var added := if r.rtype == TYPE_A then {RowFor(s.ids[slot].url, r, now)} else {};
      Sound(CacheOne(s, slot, r, now), exact, g + added)
  {
    var url := s.ids[slot].url;
    var row := RowFor(url, r, now);
    if r.rtype == TYPE_A && Where(s, url).None? {
      if exact {
        LookupIsFindRow(s, g, url);
        FindRowNone(s.rows, Live(s.table[BucketOf(url)]), url);
      }
      WriteKeepsSound(s, exact, g, row, Url(slot), (s.rowCount + 1) % MAX_AMOUNT);
    } else {
      BiggerIsSound(s, exact, g, g + if r.rtype == TYPE_A then {row} else {});
    }
  }

  lemma {:induction false} NextGrows(s: State, slot: nat, rs: seq<Record>, now: int)
    requires Shape(s) && slot < MAX_AMOUNT
    ensures s.next <= CacheAll(s, slot, rs, now).next
    ensures s.wild ==> CacheAll(s, slot, rs, now).wild
    decreases |rs|
  {
    if rs != [] {
      CacheOneKeepsShape(s, slot, rs[0], now);
      NextGrows(CacheOne(s, slot, rs[0], now), slot, rs[1..], now);
    }
  }

  lemma {:induction false} CacheAllKeepsSound(s: State, exact: bool, g: set<DnsRow>, slot: nat, rs: seq<Record>,
                                              now: int)
    requires Sound(s, exact, g) && slot < MAX_AMOUNT && !CacheAll(s, slot, rs, now).wild
    requires CacheAll(s, slot, rs, now).next <= 2 * MAX_AMOUNT
    ensures Sound(CacheAll(s, slot, rs, now), exact, g + RowsFor(s.ids[slot].url, rs, now))
    decreases |rs|
  {
    if rs == [] {
      assert g + RowsFor(s.ids[slot].url, rs, now) == g;
    } else {
      CacheOneKeepsShape(s, slot, rs[0], now);
      var s' := CacheOne(s, slot, rs[0], now);
      NextGrows(s', slot, rs[1..], now);
      CacheOneKeepsSound(s, exact, g, slot, rs[0], now);
      var added := if rs[0].rtype == TYPE_A then {RowFor(s.ids[slot].url, rs[0], now)} else {};
      CacheAllKeepsSound(s', exact, g + added, slot, rs[1..], now);
      assert g + added + RowsFor(s.ids[slot].url, rs[1..], now) == g + RowsFor(s.ids[slot].url, rs, now);
    }
  }

  lemma {:induction false} CacheAllKeepsFresh(s: State, a: nat, slot: nat, rs: seq<Record>, now: int)
    requires Fresh(s, a) && slot < a
    ensures Fresh(CacheAll(s, slot, rs, now), a)
    decreases |rs|
  {
    if rs != [] {
      var s', row := CacheOne(s, slot, rs[0], now), RowFor(s.ids[slot].url, rs[0], now);
      CacheOneKeepsShape(s, slot, rs[0], now);
      if s'.next != s.next { WriteKeepsFresh(s, a, row, Url(slot), (s.rowCount + 1) % MAX_AMOUNT); }
      CacheAllKeepsFresh(s', a, slot, rs[1..], now);
    }
  }

  // ---------------------------------------------------------------- steps

  /** A response that is taken in. */
  ghost predicate TakenIn(s: State, e: Event)
    requires Shape(s) && ValidEvent(e)
  {
    && !s.wild && e.Response? && e.message.Length() <= 1024 && e.message.id < MAX_AMOUNT
    && InTime(s, e) && Answers(e.message).Some?
  }

  /** The rows an event can contribute. */
  ghost function NewRows(s: State, e: Event): set<DnsRow>
    requires Shape(s) && ValidEvent(e)
  {
    if TakenIn(s, e) then RowsFor(s.ids[e.message.id].url, Answers(e.message).value, e.now) else {}
  }

  /** The request finds a row that has expired. */
  ghost predicate Expired(s: State, e: Event)
    requires Shape(s) && Accepted(e)
  {
    QueryType(e.message) != TYPE_PTR && Lookup(s, e.url.value).Some? && Lookup(s, e.url.value).value.ttl <= e.now
  }

  /** The tables without the entry found for `url`. */
  ghost function Removed(s: State, url: string): (s': State)
    requires Shape(s) && Where(s, url).Some?
    ensures Shape(s')
  {
    var b, p := BucketOf(url), Where(s, url).value;
    var chain := Remove(s.table[b], p);
    if chain.None? then s.(wild := true) else
      RemoveKeepsChain(s.table[b], p);
      s.(table := s.table[b := chain.value])
  }

  /** The tables when a request takes its slot: an expired row has been removed before. */
  ghost function Dropped(s: State, e: Event): (s': State)
    requires Shape(s) && Accepted(e)
    ensures Shape(s')
  {
    if Expired(s, e) then Removed(s, e.url.value) else s
  }

  lemma {:induction false} RequestInTwo(s: State, e: Event)
    requires Shape(s) && !s.wild && ValidEvent(e) && Accepted(e) && !Step(s, e).0.wild
    ensures !Dropped(s, e).wild && Step(s, e).0 == Allocate(Dropped(s, e), e, !Step(s, e).1.Forward?)
  {
  }

  lemma {:induction false} RemovedIsSound(s: State, exact: bool, g: set<DnsRow>, url: string)
    requires Sound(s, exact, g) && Where(s, url).Some? && !Removed(s, url).wild
    ensures Sound(Removed(s, url), exact, g)
  {
    if !s.wild {
      FoundIsLive(s, url);
      RemoveKeepsSound(s, exact, g, BucketOf(url), Where(s, url).value);
    }
  }

  /** The slot the event takes is free for its name.  Unless `exact`, entries that lose their name
      without misleading anyone do not count. */
  ghost predicate Safe(s: State, exact: bool, e: Event)
    requires Shape(s) && ValidEvent(e)
  {
    Accepted(e) ==> SlotIsFree(Dropped(s, e), exact, s.idCount, e.url.value)
  }

  lemma {:induction false} StepKeepsSound(s: State, exact: bool, g: set<DnsRow>, e: Event)
    requires Sound(s, exact, g) && !s.wild && ValidEvent(e) && !Step(s, e).0.wild
    requires Step(s, e).0.next <= 2 * MAX_AMOUNT && Safe(s, exact, e)
    ensures Sound(Step(s, e).0, exact, g + NewRows(s, e))
  {
    hide SlotIsFree, GoodBucket, OnMiss;
    if e.Request? {
      assert g + NewRows(s, e) == g;
      if Accepted(e) {
        RequestInTwo(s, e);
        if Expired(s, e) { RemovedIsSound(s, exact, g, e.url.value); }
        AllocateKeepsSound(Dropped(s, e), exact, g, e, !Step(s, e).1.Forward?);
      }
    } else if TakenIn(s, e) {
      var slot := e.message.id;
      FinishKeepsSound(s, exact, g, slot);
      CacheAllKeepsSound(MarkFinished(s, slot), exact, g, slot, Answers(e.message).value, e.now);
    } else {
      assert g + NewRows(s, e) == g;
    }
  }

  // ---------------------------------------------------------------- steps before the ring wraps

  lemma {:induction false} RemovedIsFresh(s: State, a: nat, url: string)
    requires Fresh(s, a) && Where(s, url).Some? && !Removed(s, url).wild
    ensures Fresh(Removed(s, url), a)
  {
    var s', b, p := Removed(s, url), BucketOf(url), Where(s, url).value;
    if !s.wild && Remove(s.table[b], p).Some? {
      FoundIsLive(s, url);
      RemoveLosesARange(s.table[b], p);
      forall c | 0 <= c < MAX_AMOUNT ensures FreshKeys(Live(s'.table[c]), a) {
        assert FreshKeys(Live(s.table[c]), a);
        if c == b { FreshWithout(Live(s.table[b]), LossStart(s.table[b], p), p + 1, a); }
      }
    }
  }

  lemma {:induction false} FreshWithout(live: seq<Content>, from: nat, to: nat, a: nat)
    requires from <= to <= |live| && FreshKeys(live, a)
    ensures FreshKeys(Without(live, from, to), a)
  {
    var w := Without(live, from, to);
    forall i | 0 <= i < |w| && w[i].Entry? && w[i].key.Url? ensures w[i].key.slot < a {
      assert w[i] == live[if i < from then i else i + (to - from)];
    }
  }

  /** A slot that has not been taken is free. */
  lemma {:induction false} FreshIsSafe(s: State, a: nat, exact: bool, e: Event)
    requires Fresh(s, a) && !s.wild && ValidEvent(e) && !Step(s, e).0.wild && (Accepted(e) ==> a < MAX_AMOUNT)
    ensures Safe(s, exact, e)
  {
    if Accepted(e) {
      RequestInTwo(s, e);
      if Expired(s, e) { RemovedIsFresh(s, a, e.url.value); }
      var s' := Dropped(s, e);
      assert forall b :: 0 <= b < MAX_AMOUNT ==> FreshKeys(Live(s'.table[b]), a);
    }
  }

  lemma {:induction false} StepKeepsFresh(s: State, a: nat, e: Event)
    requires Fresh(s, a) && !s.wild && ValidEvent(e) && !Step(s, e).0.wild && (Accepted(e) ==> a < MAX_AMOUNT)
    ensures Fresh(Step(s, e).0, if Accepted(e) then a + 1 else a)
  {
    if Accepted(e) {
      RequestInTwo(s, e);
      if Expired(s, e) { RemovedIsFresh(s, a, e.url.value); }
      TakenIsFresh(Dropped(s, e), a, e, !Step(s, e).1.Forward?);
    } else if TakenIn(s, e) {
      CacheAllKeepsFresh(MarkFinished(s, e.message.id), a, e.message.id, Answers(e.message).value, e.now);
    }
  }

  lemma {:induction false} TakenIsFresh(s: State, a: nat, e: Event, finished: bool)
    requires Fresh(s, a) && Accepted(e) && a < MAX_AMOUNT
    ensures Fresh(Allocate(s, e, finished), a + 1)
  {
    forall b | 0 <= b < MAX_AMOUNT ensures FreshKeys(Live(s.table[b]), a + 1) {
      assert FreshKeys(Live(s.table[b]), a);
    }
  }

  // ---------------------------------------------------------------- runs

  /** The genuine rows after a run: those of the file and those of the answers taken in. */
  ghost function Genuine(s: State, g: set<DnsRow>, es: seq<Event>): set<DnsRow>
    requires Shape(s) && ValidEvents(es)
  {
    if es == [] then g else
      var prefix := es[..|es| - 1];
      Genuine(s, g, prefix) + NewRows(Run(s, prefix), es[|es| - 1])
  }

  /** A run in which nothing is undefined and at most 1024 rows are written. */
  ghost predicate Bounded(s: State, es: seq<Event>)
    requires Shape(s) && ValidEvents(es)
  {
    !Run(s, es).wild && Run(s, es).next <= 2 * MAX_AMOUNT
  }

  /** Every slot was free for the name it was given. */
  ghost predicate SafeRun(s: State, exact: bool, es: seq<Event>)
    requires Shape(s) && ValidEvents(es)
  {
    es != [] ==>
      var prefix := es[..|es| - 1];
      SafeRun(s, exact, prefix) && Safe(Run(s, prefix), exact, es[|es| - 1])
  }

  lemma {:induction false} StepGrows(s: State, e: Event)
    requires Shape(s) && ValidEvent(e)
    ensures s.next <= Step(s, e).0.next && (s.wild ==> Step(s, e).0.wild)
  {
    if TakenIn(s, e) {
      NextGrows(MarkFinished(s, e.message.id), e.message.id, Answers(e.message).value, e.now);
    }
  }

  lemma {:induction false} BoundedPrefix(s: State, es: seq<Event>)
    requires Shape(s) && ValidEvents(es) && es != [] && Bounded(s, es)
    ensures var prefix, e := es[..|es| - 1], es[|es| - 1];
      && Bounded(s, prefix)
      && Allocs(s, es) == Allocs(s, prefix) + if Accepted(e) then 1 else 0
  {
    hide Step;
    var prefix := es[..|es| - 1];
    StepGrows(Run(s, prefix), es[|es| - 1]);
    assert Taken(s, es)[..|es| - 1] == Taken(s, prefix);
  }

  lemma {:induction false} RunKeepsSound(s: State, exact: bool, g: set<DnsRow>, es: seq<Event>)
    requires Sound(s, exact, g) && ValidEvents(es) && Bounded(s, es) && SafeRun(s, exact, es)
    ensures Sound(Run(s, es), exact, Genuine(s, g, es))
    decreases |es|
  {
    hide Step, GoodBucket, Safe, NewRows;
    if es != [] {
      var prefix, e := es[..|es| - 1], es[|es| - 1];
      BoundedPrefix(s, es);
      RunKeepsSound(s, exact, g, prefix);
      StepKeepsSound(Run(s, prefix), exact, Genuine(s, g, prefix), e);
    }
  }

  /** Before the ring of slots wraps every slot is free. */
  lemma {:induction false} FirstRoundIsSafe(s: State, exact: bool, es: seq<Event>)
    requires Fresh(s, 0) && ValidEvents(es) && Bounded(s, es) && Allocs(s, es) <= MAX_AMOUNT
    ensures SafeRun(s, exact, es) && Fresh(Run(s, es), Allocs(s, es))
    decreases |es|
  {
    hide Step, FreshKeys, Safe;
    if es != [] {
      var prefix, e := es[..|es| - 1], es[|es| - 1];
      BoundedPrefix(s, es);
      FirstRoundIsSafe(s, exact, prefix);
      FreshIsSafe(Run(s, prefix), Allocs(s, prefix), exact, e);
      StepKeepsFresh(Run(s, prefix), Allocs(s, prefix), e);
    }
  }

  /** Cache soundness.  Whatever entries the hash table loses, and however many requests come in, a
      request answered on the spot gets the address of a genuine, unexpired row of its name, as
      long as no slot was given a name that clashed with an entry of that name's bucket. */
  lemma {:induction false} AnswersAreGenuine(lines: seq<string>, es: seq<Event>, e: Event)
    requires !Loaded(lines).wild && ValidEvents(es) && Bounded(Loaded(lines), es)
    requires SafeRun(Loaded(lines), false, es)
    requires ValidEvent(e) && Step(Run(Loaded(lines), es), e).1.Reply?
    ensures Accepted(e) && exists row ::
      row in Genuine(Loaded(lines), FileRows(lines), es)
      && row.domain == e.url.value && row.ttl > e.now
      && Step(Run(Loaded(lines), es), e).1 == Reply(e.client, LocalReply(e.message, row))
      && AnsweredFrom(Step(Run(Loaded(lines), es), e).1, e, row.data)
  {
    LoadedIsSound(lines);
    var s, g := Loaded(lines), FileRows(lines);
    ExactIsSound(s, g);
    RunKeepsSound(s, false, g, es);
    ReplyIsGenuine(Run(s, es), false, Genuine(s, g, es), e);
  }

  lemma {:induction false} ReplyIsGenuine(s: State, exact: bool, g: set<DnsRow>, e: Event)
    requires Sound(s, exact, g) && ValidEvent(e) && Step(s, e).1.Reply?
    ensures Accepted(e) && exists row ::
      row in g && row.domain == e.url.value && row.ttl > e.now
      && Step(s, e).1 == Reply(e.client, LocalReply(e.message, row)) && AnsweredFrom(Step(s, e).1, e, row.data)
  {
    hide AnsweredFrom;
    LookupIsGenuine(s, exact, g, e.url.value);
    var row := Lookup(s, e.url.value).value;
    ReplyIsAnswer(e, row);
    assert Step(s, e).1 == Reply(e.client, LocalReply(e.message, row));
  }

  /** In particular it does on every run with at most 1024 requests. */
  lemma {:induction false} FirstRoundIsGenuine(lines: seq<string>, es: seq<Event>, e: Event)
    requires !Loaded(lines).wild && ValidEvents(es) && Bounded(Loaded(lines), es)
    requires Allocs(Loaded(lines), es) <= MAX_AMOUNT
    requires ValidEvent(e) && Step(Run(Loaded(lines), es), e).1.Reply?
    ensures Accepted(e) && exists row ::
      row in Genuine(Loaded(lines), FileRows(lines), es)
      && row.domain == e.url.value && row.ttl > e.now
      && Step(Run(Loaded(lines), es), e).1 == Reply(e.client, LocalReply(e.message, row))
      && AnsweredFrom(Step(Run(Loaded(lines), es), e).1, e, row.data)
  {
    hide Step, Sound, Genuine;
    LoadedIsSound(lines);
    FirstRoundIsSafe(Loaded(lines), false, es);
    AnswersAreGenuine(lines, es, e);
  }
}
