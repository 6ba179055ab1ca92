/** Names of the file on arbitrary runs: which are safe, and how others are lost. */
module RelayStatics {
  import opened HashChains
  import opened HashTables
  import opened DnsRecords
  import opened RelayState
  import opened RelayIsolation
  import opened RelayOutputs
  import opened RelayCache
  import opened RelayRuns
  import opened RelayRefinement
  import opened Options

  /** The ring of rows has not wrapped. */
  ghost predicate Unwrapped(s: State) {
    MAX_AMOUNT <= s.next <= 2 * MAX_AMOUNT && (s.next < 2 * MAX_AMOUNT ==> s.rowCount == s.next - MAX_AMOUNT)
  }

  /** The row, read from the file into place `r`, heads its bucket. */
  ghost predicate Anchored(s: State, row: DnsRow, r: nat)
    requires Shape(s)
  {
    && Unwrapped(s) && MAX_AMOUNT + r < s.next && r < MAX_AMOUNT
    && s.rows[r] == row && row.ttl == ETERNAL
    && s.table[BucketOf(row.domain)][0].content == Entry(Domain(r), r)
  }

  lemma {:induction false} AnchoredIsFound(s: State, row: DnsRow, r: nat)
    requires Shape(s) && Anchored(s, row, r)
    ensures Where(s, row.domain) == Some(0) && Lookup(s, row.domain) == Some(row)
  {
  }

  lemma {:induction false} RemoveKeepsHead(chain: Chain, p: nat)
    requires 0 < p < |chain| && Remove(chain, p).Some?
    ensures Remove(chain, p).value[0].content == chain[0].content
  {
  }

  lemma {:induction false} RequestKeepsAnchor(s: State, row: DnsRow, r: nat, e: Event)
    requires Shape(s) && Anchored(s, row, r) && ValidEvent(e) && e.Request? && !s.wild
    ensures Shape(Step(s, e).0) && Anchored(Step(s, e).0, row, r)
  {
    StepKeepsShape(s, e);
    AnchoredIsFound(s, row, r);
    if Accepted(e) && BucketOf(e.url.value) == BucketOf(row.domain) {
      var p := Where(s, e.url.value);
      if p.Some? && p.value > 0 && Remove(s.table[BucketOf(row.domain)], p.value).Some? {
        RemoveKeepsHead(s.table[BucketOf(row.domain)], p.value);
      }
    }
  }

  lemma {:induction false} AnswerKeepsAnchor(s: State, row: DnsRow, r: nat, slot: nat, record: Record, now: int)
    requires Shape(s) && Anchored(s, row, r) && slot < MAX_AMOUNT
    requires Shape(CacheOne(s, slot, record, now)) && !CacheOne(s, slot, record, now).wild
    requires CacheOne(s, slot, record, now).next <= 2 * MAX_AMOUNT
    ensures Anchored(CacheOne(s, slot, record, now), row, r)
  {
    hide Find;
  }

  lemma {:induction false} AnswersKeepAnchor(s: State, row: DnsRow, r: nat, slot: nat, rs: seq<Record>, now: int)
    requires Shape(s) && Anchored(s, row, r) && slot < MAX_AMOUNT
    requires CacheAll(s, slot, rs, now).next <= 2 * MAX_AMOUNT && !CacheAll(s, slot, rs, now).wild
    ensures Anchored(CacheAll(s, slot, rs, now), row, r)
    decreases |rs|
  {
    hide Anchored, CacheOne;
    if rs != [] {
      CacheOneKeepsShape(s, slot, rs[0], now);
      NextGrows(CacheOne(s, slot, rs[0], now), slot, rs[1..], now);
      AnswerKeepsAnchor(s, row, r, slot, rs[0], now);
      AnswersKeepAnchor(CacheOne(s, slot, rs[0], now), row, r, slot, rs[1..], now);
    }
  }

  lemma {:induction false} RunKeepsAnchor(s: State, row: DnsRow, r: nat, es: seq<Event>)
    requires Shape(s) && Anchored(s, row, r) && ValidEvents(es)
    requires !Run(s, es).wild && Run(s, es).next <= 2 * MAX_AMOUNT
    ensures Anchored(Run(s, es), row, r)
    decreases |es|
  {
    if es != [] {
      var prefix, e := es[..|es| - 1], es[|es| - 1];
      var before := Run(s, prefix);
      StepGrows(before, e);
      RunKeepsAnchor(s, row, r, prefix);
      if e.Request? {
        RequestKeepsAnchor(before, row, r, e);
      } else if TakenIn(before, e) {
        AnswersKeepAnchor(MarkFinished(before, e.message.id), row, r, e.message.id, Answers(e.message).value, e.now);
      }
    }
  }

  /** How many names of the lines fall into bucket `b`. */
  ghost function CountIn(lines: seq<string>, b: nat): (n: nat)
    ensures n <= |lines|
  {
    if lines == [] then 0 else
      (if ParseLine(lines[0]).Some? && BucketOf(LineRow(lines[0]).domain) == b then 1 else 0) + CountIn(lines[1..], b)
  }

  ghost predicate Avoids(lines: seq<string>, b: nat) { CountIn(lines, b) == 0 }

  ghost predicate Reading(s: State) {
    Shape(s) && !s.wild && s.next == MAX_AMOUNT + s.rowCount
  }

  lemma {:induction false} LoadKeepsEmpty(s: State, lines: seq<string>, b: nat)
    requires Reading(s) && b < MAX_AMOUNT && s.table[b][0].content.Vacant?
    requires Avoids(lines, b) && !Load(s, lines).wild
    ensures Reading(Load(s, lines)) && Load(s, lines).table[b][0].content.Vacant?
    decreases |lines|
  {
    if lines != [] {
      LoadKeepsShape(s, lines[0]);
      assert Load(s, lines) == Load(LoadLine(s, lines[0]), lines[1..]) && !LoadLine(s, lines[0]).wild;
      LoadKeepsEmpty(LoadLine(s, lines[0]), lines[1..], b);
    }
  }

  lemma {:induction false} LoadKeepsAnchor(s: State, lines: seq<string>, row: DnsRow, r: nat)
    requires Reading(s) && Anchored(s, row, r) && !Load(s, lines).wild
    ensures Shape(Load(s, lines)) && Anchored(Load(s, lines), row, r)
    decreases |lines|
  {
    if lines != [] {
      LoadKeepsShape(s, lines[0]);
      assert Load(s, lines) == Load(LoadLine(s, lines[0]), lines[1..]) && !LoadLine(s, lines[0]).wild;
      LoadKeepsAnchor(LoadLine(s, lines[0]), lines[1..], row, r);
    }
  }

  lemma {:induction false} LoadConcat(s: State, before: seq<string>, after: seq<string>)
    requires Shape(s)
    ensures Shape(Load(s, before)) && Load(s, before + after) == Load(Load(s, before), after)
    decreases |before|
  {
    if before == [] {
      assert before + after == after;
    } else {
      LoadKeepsShape(s, before[0]);
      assert (before + after)[1..] == before[1..] + after;
      LoadConcat(LoadLine(s, before[0]), before[1..], after);
    }
  }

  lemma {:induction false} WildLoad(s: State, lines: seq<string>)
    requires Shape(s) && s.wild
    ensures Load(s, lines) == s
  {
  }

  lemma {:induction false} FirstInBucketIsAnchored(before: seq<string>, line: string, after: seq<string>)
    requires !Loaded(before + [line] + after).wild && ParseLine(line).Some?
    requires Avoids(before, BucketOf(LineRow(line).domain))
    ensures exists r: nat :: Anchored(Loaded(before + [line] + after), LineRow(line), r)
  {
    var row := LineRow(line);
    var domain := row.domain;
    BootIsSound();
    LoadConcat(Boot(), before, [line] + after);
    assert before + [line] + after == before + ([line] + after);
    var s := Load(Boot(), before);
    if s.wild { WildLoad(s, [line] + after); }
    LoadKeepsEmpty(Boot(), before, BucketOf(domain));
    assert ([line] + after)[1..] == after;
    LoadKeepsShape(s, line);
    var s' := LoadLine(s, line);
    if s'.wild { WildLoad(s', after); }
    assert Anchored(s', row, s.rowCount);
    LoadKeepsAnchor(s', after, row, s.rowCount);
    assert Anchored(Load(s', after), row, s.rowCount);
  }

  /** Static names.  A name of the file that comes first in its bucket is answered on the spot
      with the address of the file, or with none if that is 0.0.0.0, at every moment of every run
      that does not wrap the ring of rows; it is never forwarded and no answer changes it. */
  lemma {:induction false} FirstNamesAreStable(before: seq<string>, line: string, after: seq<string>, es: seq<Event>,
        e: Event)
    requires !Loaded(before + [line] + after).wild && ParseLine(line).Some?
    requires Avoids(before, BucketOf(LineRow(line).domain))
    requires ValidEvents(es) && !Run(Loaded(before + [line] + after), es).wild
    requires Run(Loaded(before + [line] + after), es).next <= 2 * MAX_AMOUNT
    requires ValidEvent(e) && Accepted(e) && QueryType(e.message) != TYPE_PTR
    requires e.url.value == LineRow(line).domain && Fits(e.message)
    ensures var row := LineRow(line);
      var out := Step(Run(Loaded(before + [line] + after), es), e).1;
      out == Reply(e.client, LocalReply(e.message, row)) && AnsweredFrom(out, e, row.data)
  {
    hide AnsweredFrom;
    var row := LineRow(line);
    FirstInBucketIsAnchored(before, line, after);
    var s := Loaded(before + [line] + after);
    var r: nat :| Anchored(s, row, r);
    RunKeepsAnchor(s, row, r, es);
    AnchoredIsFound(Run(s, es), row, r);
    ReplyIsAnswer(e, row);
  }

  /** A bucket all of whose nodes are live, with room in both rings for one more round, in which
      `url` is not to be found. */
  ghost predicate Ready(s: State, a: nat, g: set<DnsRow>, url: string) {
    && Sound(s, true, g) && Fresh(s, a) && a + 2 <= MAX_AMOUNT && !s.wild && s.next < 2 * MAX_AMOUNT
    && |Live(s.table[BucketOf(url)])| == |s.table[BucketOf(url)]| && Where(s, url).None?
  }

  /** Three events: a request for a name, its answer, and a request for it after the answer
      expired.  They take the last old entry of the name's bucket along, if it has two or more. */
  lemma {:induction false} RoundDropsLast(s: State, a: nat, g: set<DnsRow>, ask: Event, answer: Event, again: Event,
                                          r: Record)
    requires ValidEvent(ask) && Accepted(ask) && QueryType(ask.message) != TYPE_PTR
    requires ValidEvent(again) && Accepted(again) && QueryType(again.message) != TYPE_PTR && again.url == ask.url
    requires Ready(s, a, g, ask.url.value) && |s.table[BucketOf(ask.url.value)]| >= 2
    requires ValidEvent(answer) && answer.Response? && answer.message.Length() <= 1024
    requires answer.message.id == a && answer.now - ask.now <= 2
    requires Answers(answer.message) == Some([r]) && r.rtype == TYPE_A
    requires RowFor(ask.url.value, r, answer.now).ttl <= again.now
    ensures var s1 := Step(s, ask).0;
      && Shape(s1)
      && var s2 := Step(s1, answer).0;
      && Shape(s2)
      && var s3 := Step(s2, again).0;
      && Shortened(s, s3, BucketOf(ask.url.value))
      && Sound(s3, true, g + {RowFor(ask.url.value, r, answer.now)}) && Fresh(s3, a + 2)
  {
    hide Step, Insert, Remove, Allocate, FindRow, GoodChain, GoodBucket, Live, FreshKeys, RowFor, QueryType, Answers,
      BucketOf, TextsOf, Find;
    var url := ask.url.value;
    var chain := s.table[BucketOf(url)];
    var row := RowFor(url, r, answer.now);
    RowHasName(url, r, answer.now);
    var s1 := Step(s, ask).0;
    AfterAsking(s, a, g, ask);
    var s2 := Step(s1, answer).0;
    AfterAnswer(s1, a + 1, g, answer, r, url);
    LiveEntriesAreGood(s, true, g, BucketOf(url));
    InsertThenRemove(chain, s.next, Url(s.idCount), s.rowCount);
    NewEntryIsLast(s, g, s2, url, row, Url(s.idCount));
    AfterAskingAgain(s2, a + 1, g + {row}, again, |chain|);
  }

  /** The bucket has lost its last entry and is otherwise as it was; one more row is written. */
  ghost predicate Shortened(s: State, s': State, b: nat)
    requires Shape(s) && b < MAX_AMOUNT
  {
    && Shape(s') && !s'.wild && s'.next == s.next + 1
    && (forall r :: 0 <= r < MAX_AMOUNT && MAX_AMOUNT + r < s.next ==> s'.rows[r] == s.rows[r])
    && var n := |s.table[b]|;
       n >= 2 && |Live(s.table[b])| == n && |s'.table[b]| == n - 1 && Live(s'.table[b]) == Live(s.table[b])[..n - 1]
  }

  /** `victim` is found at position `p` of its bucket and not before. */
  ghost predicate SitsAt(s: State, victim: string, p: nat)
    requires Shape(s)
  {
    var live := Live(s.table[BucketOf(victim)]);
    p < |live| && Names(s.rows, live[p], victim) && FindRow(s.rows, live[..p], victim).None?
  }

  /** What a round means for the names of the bucket. */
  lemma {:induction false} AfterRound(s: State, g: set<DnsRow>, s': State, g': set<DnsRow>, x: string, victim: string,
                                      p: nat)
    requires Sound(s, true, g) && Sound(s', true, g') && BucketOf(victim) == BucketOf(x)
    requires Shortened(s, s', BucketOf(x)) && Where(s, x).None? && SitsAt(s, victim, p)
    ensures Where(s', x).None?
    ensures p == |s.table[BucketOf(x)]| - 1 ==> Lookup(s', victim).None?
    ensures p < |s.table[BucketOf(x)]| - 1 ==> SitsAt(s', victim, p)
  {
    hide Insert, Remove, GoodChain, GoodBucket, Find;
    var b := BucketOf(x);
    var live, n := Live(s.table[b]), |s.table[b]|;
    LookupIsFindRow(s, g, x);
    LookupIsFindRow(s', g', x);
    LookupIsFindRow(s', g', victim);
    OldRowsStay(s, true, g, s', live[..n - 1], b, x);
    OldRowsStay(s, true, g, s', live[..n - 1], b, victim);
    assert live == live[..n - 1] + [live[n - 1]];
    FindRowConcat(s.rows, live[..n - 1], [live[n - 1]], x);
    if p < n - 1 {
      assert live[..n - 1][..p] == live[..p] && live[..p] <= live;
      OldRowsStay(s, true, g, s', live[..p], b, victim);
      LiveEntriesAreGood(s, true, g, b);
      assert GoodEntry(s, true, g, b, live[p]);
    }
  }

  lemma {:induction false} NewEntryIsLast(s: State, g: set<DnsRow>, s': State, url: string, row: DnsRow, key: KeyRef)
    requires Sound(s, true, g) && s.next < 2 * MAX_AMOUNT && Where(s, url).None? && row.domain == url
    requires |s'.rows| == MAX_AMOUNT && s'.rows == s.rows[s.rowCount := row]
    requires var chain := s.table[BucketOf(url)]; |Live(chain)| == |chain|
    ensures var chain := s.table[BucketOf(url)];
      var n, live' := |chain|, Live(Insert(chain, s.next, key, s.rowCount));
      && live' == Live(chain) + [Entry(key, s.rowCount)]
      && Names(s'.rows, live'[n], url) && s'.rows[live'[n].row] == row
      && FindRow(s'.rows, live'[..n], url).None?
  {
    var chain := s.table[BucketOf(url)];
    assert GoodChain(chain);
    InsertIsSeen(chain, s.next, key, s.rowCount);
    var live' := Live(Insert(chain, s.next, key, s.rowCount));
    assert live'[..|chain|] == Live(chain);
    LookupIsFindRow(s, g, url);
    OldRowsStay(s, true, g, s', Live(chain), BucketOf(url), url);
  }

  lemma {:induction false} AfterAsking(s: State, a: nat, g: set<DnsRow>, ask: Event)
    requires Sound(s, true, g) && Fresh(s, a) && a < MAX_AMOUNT && !s.wild
    requires ValidEvent(ask) && Accepted(ask) && QueryType(ask.message) != TYPE_PTR && Where(s, ask.url.value).None?
    ensures var s' := Step(s, ask).0;
      && Sound(s', true, g) && Fresh(s', a + 1) && !s'.wild && s'.table == s.table && s'.rows == s.rows
      && s'.next == s.next && s'.rowCount == s.rowCount && s.idCount == a
      && SameOwner(s'.ids[s.idCount], RowOf(ask)) && Where(s', ask.url.value).None?
  {
    hide GoodBucket, FreshKeys, Find, Safe;
    assert !Step(s, ask).0.wild && NewRows(s, ask) == {} && g + {} == g;
    FreshIsSafe(s, a, true, ask);
    StepKeepsFresh(s, a, ask);
    StepKeepsSound(s, true, g, ask);
    LookupIsFindRow(s, g, ask.url.value);
    LookupIsFindRow(Step(s, ask).0, g, ask.url.value);
  }

  lemma {:induction false} AfterAnswer(s: State, a: nat, g: set<DnsRow>, answer: Event, r: Record, url: string)
    requires Sound(s, true, g) && Fresh(s, a) && !s.wild && s.next < 2 * MAX_AMOUNT
    requires ValidEvent(answer) && TakenIn(s, answer)
    requires Answers(answer.message) == Some([r]) && r.rtype == TYPE_A
    requires s.ids[answer.message.id].url == url && Where(s, url).None?
    ensures var s' := Step(s, answer).0;
      var row := RowFor(url, r, answer.now);
      var b, chain := BucketOf(url), s.table[BucketOf(url)];
      && Sound(s', true, g + {row}) && Fresh(s', a) && !s'.wild
      && s'.table == s.table[b := Insert(chain, s.next, Url(answer.message.id), s.rowCount)] && s'.next == s.next + 1
      && s'.rows == s.rows[s.rowCount := row]
      && s'.ids[answer.message.id].url == url
  {
    hide GoodBucket, FreshKeys, Find, Insert;
    var slot := answer.message.id;
    var marked := MarkFinished(s, slot);
    FinishKeepsSound(s, true, g, slot);
    LookupIsFindRow(s, g, url);
    LookupIsFindRow(marked, g, url);
    OneAnswer(marked, slot, r, answer.now);
    StepKeepsSound(s, true, g, answer);
    StepKeepsFresh(s, a, answer);
    assert RowsFor(url, [r], answer.now) == {RowFor(url, r, answer.now)};
  }

  lemma {:induction false} OneAnswer(s: State, slot: nat, r: Record, now: int)
    requires Shape(s) && slot < MAX_AMOUNT
    ensures CacheAll(s, slot, [r], now) == CacheOne(s, slot, r, now)
    ensures r.rtype == TYPE_A ==> RowsFor(s.ids[slot].url, [r], now) == {RowFor(s.ids[slot].url, r, now)}
  {
    CacheOneKeepsShape(s, slot, r, now);
    assert [r][1..] == [];
    assert CacheAll(s, slot, [r], now) == CacheAll(CacheOne(s, slot, r, now), slot, [], now);
  }

  /** The last entry of a bucket, found there and expired, is taken out. */
  lemma {:induction false} AfterAskingAgain(s: State, a: nat, g: set<DnsRow>, again: Event, n: nat)
    requires Sound(s, true, g) && Fresh(s, a) && a < MAX_AMOUNT && !s.wild
    requires ValidEvent(again) && Accepted(again) && QueryType(again.message) != TYPE_PTR
    requires var url := again.url.value;
      var chain := s.table[BucketOf(url)];
      && |chain| == n + 1 && |Live(chain)| == n + 1 && Remove(chain, n).Some?
      && Names(s.rows, Live(chain)[n], url) && s.rows[Live(chain)[n].row].ttl <= again.now
      && FindRow(s.rows, Live(chain)[..n], url).None?
    ensures var s' := Step(s, again).0;
      var b := BucketOf(again.url.value);
      && Sound(s', true, g) && Fresh(s', a + 1) && !s'.wild
      && s'.table == s.table[b := Remove(s.table[b], n).value] && s'.rows == s.rows && s'.next == s.next
  {
    hide GoodBucket, FreshKeys, Remove, Safe;
    var url := again.url.value;
    var live := Live(s.table[BucketOf(url)]);
    assert live == live[..n] + [live[n]];
    FindRowConcat(s.rows, live[..n], [live[n]], url);
    LookupIsFindRow(s, g, url);
    FoundFirst(s, g, url);
    FindRowNone(s.rows, live[..n], url);
    assert forall i :: 0 <= i < n ==> live[..n][i] == live[i];
    assert !Step(s, again).0.wild && NewRows(s, again) == {} && g + {} == g;
    FreshIsSafe(s, a, true, again);
    StepKeepsFresh(s, a, again);
    StepKeepsSound(s, true, g, again);
  }
}
