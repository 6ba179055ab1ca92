/** How long an answer lives: exactly as many seconds as its TTL says. */
module RelayExpiry {
  import opened HashChains
  import opened HashTables
  import opened DnsAddress
  import opened DnsRecords
  import opened RelayState
  import opened RelayIsolation
  import opened RelayOutputs
  import opened RelayCache
  import opened RelayRuns
  import opened RelaySlots
  import opened RelayRefinement
  import opened RelayStatics
  import opened Options

  /** A request for a name that is not cached goes upstream and leaves everything else as it was. */
  lemma {:induction false} MissTakesASlot(s: State, g: set<DnsRow>, ask: Event)
    requires Sound(s, true, g) && !s.wild && ValidEvent(ask) && Accepted(ask) && QueryType(ask.message) != TYPE_PTR
    requires Where(s, ask.url.value).None? && SlotIsFree(s, true, s.idCount, ask.url.value)
    ensures Step(s, ask) == (Allocate(s, ask, false), Forward(ask.message.(id := s.idCount)))
    ensures Sound(Allocate(s, ask, false), true, g) && Where(Allocate(s, ask, false), ask.url.value).None?
  {
    hide GoodBucket, SlotIsFree;
    AllocateKeepsSound(s, true, g, ask, false);
    LookupIsFindRow(s, g, ask.url.value);
    LookupIsFindRow(Allocate(s, ask, false), g, ask.url.value);
  }

  /** What the answer to the request in slot `t` leaves in an open bucket: an entry at the end. */
  lemma {:induction false} AnswerIsKept(s: State, g: set<DnsRow>, answer: Event, r: Record, url: string)
    requires Sound(s, true, g) && !s.wild && s.next < 2 * MAX_AMOUNT && ValidEvent(answer) && TakenIn(s, answer)
    requires Answers(answer.message) == Some([r]) && r.rtype == TYPE_A
    requires s.ids[answer.message.id].url == url && Where(s, url).None? && Open(s.table[BucketOf(url)])
    ensures var s', b := Step(s, answer).0, BucketOf(url);
      && Step(s, answer).1.Deliver? && !s'.wild && Sound(s', true, g + {RowFor(url, r, answer.now)})
      && Lookup(s', url) == Some(RowFor(url, r, answer.now))
      && s'.table[b] == Insert(s.table[b], s.next, Url(answer.message.id), s.rowCount)
  {
    hide GoodBucket, Insert, Open, RowFor, Find;
    var slot := answer.message.id;
    var marked := MarkFinished(s, slot);
    FinishKeepsSound(s, true, g, slot);
    LookupIsFindRow(s, g, url);
    LookupIsFindRow(marked, g, url);
    OneAnswer(marked, slot, r, answer.now);
    var kept := CacheOne(marked, slot, r, answer.now);
    assert Where(marked, url).None? && !kept.wild && kept.next == s.next + 1;
    assert Step(s, answer) == (kept, Deliver(kept.ids[slot].client, answer.message.(id := kept.ids[slot].prevID)));
    RowHasName(url, r, answer.now);
    CacheOneKeepsSound(marked, true, g, slot, r, answer.now);
    AnswerAddsOne(marked, g, slot, r, answer.now, url);
  }

  /** The entry at the end can be removed. */
  lemma {:induction false} NewestCanBeRemoved(s: State, g: set<DnsRow>, url: string, chain: Chain, id: nat, key: KeyRef,
                                              row: nat)
    requires Sound(s, true, g) && Where(s, url).Some? && chain != [] && DistinctIds(chain) && Open(chain)
    requires s.table[BucketOf(url)] == Insert(chain, id, key, row)
    requires FindRow(s.rows, Live(chain), url).None?
    ensures Remove(s.table[BucketOf(url)], Where(s, url).value).Some?
  {
    hide GoodBucket, Find;
    var after, live := s.table[BucketOf(url)], Live(chain);
    FoundFirst(s, g, url);
    InsertIsSeen(chain, id, key, row);
    FindRowNone(s.rows, live, url);
    if live != [] { InsertThenRemove(chain, id, key, row); }
  }

  /** A name that is not cached is asked for, and answered at `answer.now` with one address that is to
      live for `r.ttl` seconds.  A request at any time before the end of them is answered on the spot
      with that address; a request from then on goes upstream. */
  lemma {:induction false} AnswersExpire(s: State, g: set<DnsRow>, ask: Event, answer: Event, r: Record, again: Event)
    requires Sound(s, true, g) && !s.wild && s.next < 2 * MAX_AMOUNT
    requires ValidEvent(ask) && Accepted(ask) && QueryType(ask.message) != TYPE_PTR
    requires Where(s, ask.url.value).None? && SlotIsFree(s, true, s.idCount, ask.url.value)
    requires Open(s.table[BucketOf(ask.url.value)])
    requires ValidEvent(answer) && answer.Response? && answer.message.Length() <= 1024
    requires answer.message.id == s.idCount && answer.now - ask.now <= 2
    requires Answers(answer.message) == Some([r]) && r.rtype == TYPE_A && |r.data| == 4
    requires 0 <= r.ttl && answer.now + r.ttl < 0x1_0000_0000
    requires ValidEvent(again) && Accepted(again) && QueryType(again.message) != TYPE_PTR
    requires again.url == ask.url && RelayState.Fits(again.message)
    ensures Step(s, ask).1.Forward? && Shape(Step(s, ask).0)
    ensures Step(Step(s, ask).0, answer).1.Deliver? && Shape(Step(Step(s, ask).0, answer).0)
    ensures var out := Step(Step(Step(s, ask).0, answer).0, again).1;
      if again.now < answer.now + r.ttl then AnswersWith(out, again, r.data, r.data == [0, 0, 0, 0]) else out.Forward?
  {
    hide GoodBucket, Insert, Open, SlotIsFree, Answers, Find, Remove, AnswersWith, CacheAll, LocalReply;
    var url := ask.url.value;
    var s1 := Step(s, ask).0;
    MissTakesASlot(s, g, ask);
    AnswerIsKept(s1, g, answer, r, url);
    var s2 := Step(s1, answer).0;
    RowLives(url, r, answer.now);
    if again.now < answer.now + r.ttl {
      ReplyIsAnswer(again, RowFor(url, r, answer.now));
    } else {
      LookupIsFindRow(s1, g, url);
      OldBucket(s1, g, s2, answer, url);
      NewestCanBeRemoved(s2, g + {RowFor(url, r, answer.now)}, url, s.table[BucketOf(url)], s1.next,
                         Url(answer.message.id), s1.rowCount);
    }
  }

  lemma {:induction false} RowLives(url: string, r: Record, now: int)
    requires 0 <= now && 0 <= r.ttl && now + r.ttl < 0x1_0000_0000
    ensures RowFor(url, r, now).ttl == now + r.ttl && RowFor(url, r, now).data == Print(r.data)
  {
  }

  /** The rows of the old entries stay when an answer is taken in. */
  lemma {:induction false} OldBucket(s: State, g: set<DnsRow>, s': State, answer: Event, url: string)
    requires Sound(s, true, g) && !s.wild && s.next < 2 * MAX_AMOUNT && ValidEvent(answer) && TakenIn(s, answer)
    requires s' == Step(s, answer).0 && |Answers(answer.message).value| == 1
    ensures |s'.rows| == MAX_AMOUNT
    ensures FindRow(s'.rows, Live(s.table[BucketOf(url)]), url) == FindRow(s.rows, Live(s.table[BucketOf(url)]), url)
    ensures DistinctIds(s.table[BucketOf(url)]) && s.table[BucketOf(url)] != []
  {
    hide GoodBucket, Insert, Find, RowFor;
    var rs, slot := Answers(answer.message).value, answer.message.id;
    OneAnswer(MarkFinished(s, slot), slot, rs[0], answer.now);
    assert rs == [rs[0]];
    OldRowsStay(s, true, g, s', Live(s.table[BucketOf(url)]), BucketOf(url), url);
    LiveEntriesAreGood(s, true, g, BucketOf(url));
    assert GoodChain(s.table[BucketOf(url)]);
    BucketIds(s, g, BucketOf(url));
  }

  lemma {:induction false} BucketIds(s: State, g: set<DnsRow>, b: nat)
    requires Sound(s, true, g) && b < MAX_AMOUNT
    ensures DistinctIds(s.table[b])
  {
    LiveEntriesAreGood(s, true, g, b);
  }
}
