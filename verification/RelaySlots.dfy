/** What happens to lookups when a request takes a slot that entries still take their names from. */
module RelaySlots {
  import opened HashChains
  import opened HashTables
  import opened DnsRecords
  import opened RelayState
  import opened RelayCache
  import opened Options

  lemma {:induction false} SameFinds(live: seq<Content>, t: Texts, t': Texts, url: string)
    requires forall i :: 0 <= i < |live| && live[i].Entry? ==> (t(live[i].key) == url <==> t'(live[i].key) == url)
    ensures FindLive(live, t, url) == FindLive(live, t', url)
  {
    if live != [] { SameFinds(live[1..], t, t', url); }
  }

  lemma {:induction false} LookupIsFindLive(s: State, url: string)
    requires Shape(s)
    ensures var r := FindLive(Live(s.table[BucketOf(url)]), TextsOf(s.ids, s.rows), url);
      if r.None? then Lookup(s, url).None? else r.value.row < MAX_AMOUNT && Lookup(s, url) == Some(s.rows[r.value.row])
  {
    FindSeesLive(s.table[BucketOf(url)], TextsOf(s.ids, s.rows), url);
  }

  /** What the key of an entry shows before and after slot `t` is given the name `url`. */
  ghost predicate Shows(s: State, s': State, t: nat, url: string, c: Content)
    requires |s.rows| == MAX_AMOUNT
  {
    && c.Entry? && c.row < MAX_AMOUNT
    && TextOf(s.ids, s.rows, c.key) == s.rows[c.row].domain
    && TextOf(s'.ids, s'.rows, c.key) == if c.key == Url(t) then url else s.rows[c.row].domain
  }

  lemma {:induction false} TextsAfter(s: State, g: set<DnsRow>, e: Event, finished: bool, b: nat)
    requires Sound(s, true, g) && Accepted(e) && b < MAX_AMOUNT
    ensures var live := Live(s.table[b]);
      forall i :: 0 <= i < |live| ==>
        Shows(s, Allocate(s, e, finished), s.idCount, e.url.value, live[i]) && BucketOf(s.rows[live[i].row].domain) == b
  {
    LiveEntriesAreGood(s, true, g, b);
    forall i | 0 <= i < |Live(s.table[b])|
      ensures Shows(s, Allocate(s, e, finished), s.idCount, e.url.value, Live(s.table[b])[i])
    {
      assert GoodEntry(s, true, g, b, Live(s.table[b])[i]);
      LiveInRange(s, b, i);
    }
  }

  /** The entry for `n` takes its name from slot `t`. */
  ghost predicate NamedBy(rows: seq<DnsRow>, c: Content, n: string, t: nat) {
    Names(rows, c, n) && c.key == Url(t)
  }

  /** Such an entry is live. */
  ghost predicate NamedBySlot(s: State, n: string, t: nat)
    requires Shape(s)
  {
    exists i :: 0 <= i < |Live(s.table[BucketOf(n)])| && NamedBy(s.rows, Live(s.table[BucketOf(n)])[i], n, t)
  }

  /** Any other name than the one written is lost if it came from the slot. */
  lemma {:induction false} NameOfSlotIsLost(s: State, g: set<DnsRow>, e: Event, finished: bool, n: string)
    requires Sound(s, true, g) && Accepted(e) && n != e.url.value && NamedBySlot(s, n, s.idCount)
    ensures Lookup(s, n).Some? && Lookup(Allocate(s, e, finished), n).None?
  {
    hide Allocate, Live, FindLive, Unique;
    var b, s' := BucketOf(n), Allocate(s, e, finished);
    var live := Live(s.table[b]);
    TextsAfter(s, g, e, finished, b);
    LookupIsFindLive(s, n);
    LookupAfter(s, e, finished, n);
    var i :| 0 <= i < |live| && NamedBy(s.rows, live[i], n, s.idCount);
    assert live[i] in live && Shows(s, s', s.idCount, e.url.value, live[i]);
    LiveEntriesAreGood(s, true, g, b);
    forall j | 0 <= j < |live| ensures TextOf(s'.ids, s'.rows, live[j].key) != n {
      assert Shows(s, s', s.idCount, e.url.value, live[j]);
      NamedOnce(s.rows, live, i, j, n, s.idCount);
    }
  }

  lemma {:induction false} NamedOnce(rows: seq<DnsRow>, live: seq<Content>, i: nat, j: nat, n: string, t: nat)
    requires i < |live| && j < |live| && Unique(rows, live) && NamedBy(rows, live[i], n, t)
    ensures j == i || !Names(rows, live[j], n)
  {
    assert i < j ==> !SameName(rows, live[i], live[j]);
    assert j < i ==> !SameName(rows, live[j], live[i]);
  }

  lemma {:induction false} LookupAfter(s: State, e: Event, finished: bool, n: string)
    requires Shape(s) && Accepted(e)
    ensures var s' := Allocate(s, e, finished);
      var r := FindLive(Live(s.table[BucketOf(n)]), TextsOf(s'.ids, s'.rows), n);
      && Shape(s')
      && if r.None? then Lookup(s', n).None? else r.value.row < MAX_AMOUNT && Lookup(s', n) == Some(s.rows[r.value.row])
  {
    LookupIsFindLive(Allocate(s, e, finished), n);
  }

  /** Any other name keeps its row. */
  lemma {:induction false} OtherNameStays(s: State, g: set<DnsRow>, e: Event, finished: bool, n: string)
    requires Sound(s, true, g) && Accepted(e)
    requires if n == e.url.value then SlotIsFree(s, false, s.idCount, n) else !NamedBySlot(s, n, s.idCount)
    ensures Lookup(Allocate(s, e, finished), n) == Lookup(s, n)
  {
    hide Allocate, Live, FindLive;
    var b, s' := BucketOf(n), Allocate(s, e, finished);
    var live := Live(s.table[b]);
    TextsAfter(s, g, e, finished, b);
    LookupIsFindLive(s, n);
    LookupAfter(s, e, finished, n);
    forall i | 0 <= i < |live|
      ensures live[i].Entry? && (TextOf(s.ids, s.rows, live[i].key) == n <==> TextOf(s'.ids, s'.rows, live[i].key) == n)
    {
      assert Shows(s, s', s.idCount, e.url.value, live[i]);
      if n == e.url.value {
        assert !Clashes(s, false, b, live[i], s.idCount, n);
      } else {
        assert !NamedBy(s.rows, live[i], n, s.idCount);
      }
    }
    SameFinds(live, TextsOf(s.ids, s.rows), TextsOf(s'.ids, s'.rows), n);
  }

  /** Taking a slot leaves every lookup alone exactly when no live entry takes its name, a different
      one, from that slot. */
  lemma {:induction false} TakingASlotIsHarmlessIff(s: State, g: set<DnsRow>, e: Event, finished: bool)
    requires Sound(s, true, g) && Accepted(e)
    ensures (forall n :: Lookup(Allocate(s, e, finished), n) == Lookup(s, n))
      <==> SlotIsFree(s, true, s.idCount, e.url.value)
  {
    hide Lookup, Live;
    var t, url := s.idCount, e.url.value;
    if SlotIsFree(s, true, t, url) {
      forall n ensures Lookup(Allocate(s, e, finished), n) == Lookup(s, n) {
        if n == url { ExactSlotIsFree(s, t, n); } else { FreeSlotNamesNone(s, n, t, url); }
        OtherNameStays(s, g, e, finished, n);
      }
    } else {
      var b, i :| 0 <= b < MAX_AMOUNT && 0 <= i < |Live(s.table[b])|
        && Clashes(s, true, b, Live(s.table[b])[i], t, url);
      var n := s.rows[Live(s.table[b])[i].row].domain;
      TextsAfter(s, g, e, finished, b);
      assert Shows(s, Allocate(s, e, finished), t, url, Live(s.table[b])[i]);
      assert NamedBy(s.rows, Live(s.table[BucketOf(n)])[i], n, t);
      NameOfSlotIsLost(s, g, e, finished, n);
    }
  }

  lemma {:induction false} ExactSlotIsFree(s: State, t: nat, url: string)
    requires Shape(s) && SlotIsFree(s, true, t, url)
    ensures SlotIsFree(s, false, t, url)
  {
    forall b, i | 0 <= b < MAX_AMOUNT && 0 <= i < |Live(s.table[b])|
      ensures !Clashes(s, false, b, Live(s.table[b])[i], t, url)
    {
      assert !Clashes(s, true, b, Live(s.table[b])[i], t, url);
    }
  }

  lemma {:induction false} FreeSlotNamesNone(s: State, n: string, t: nat, url: string)
    requires Shape(s) && SlotIsFree(s, true, t, url) && n != url
    ensures !NamedBySlot(s, n, t)
  {
    var b := BucketOf(n);
    forall i | 0 <= i < |Live(s.table[b])| ensures !NamedBy(s.rows, Live(s.table[b])[i], n, t) {
      assert !Clashes(s, true, b, Live(s.table[b])[i], t, url);
    }
  }

  /** Worse: after a request for a name that is not cached, the name is found, in the row of another
      name, exactly when some entry of the name's bucket takes its name from the slot. */
  lemma {:induction false} ReusedSlotMisleadsIff(s: State, g: set<DnsRow>, e: Event)
    requires Sound(s, true, g) && !s.wild && ValidEvent(e) && Accepted(e) && QueryType(e.message) != TYPE_PTR
    requires Where(s, e.url.value).None?
    ensures Shape(Step(s, e).0)
    ensures Lookup(Step(s, e).0, e.url.value).Some? <==> !SlotIsFree(s, false, s.idCount, e.url.value)
    ensures var row := Lookup(Step(s, e).0, e.url.value); row.Some? ==> row.value.domain != e.url.value
  {
    hide Live, FindLive;
    var n, s', t := e.url.value, Allocate(s, e, false), s.idCount;
    var b := BucketOf(n);
    var live := Live(s.table[b]);
    assert Step(s, e).0 == s';
    TextsAfter(s, g, e, false, b);
    LookupIsFindLive(s, n);
    LookupAfter(s, e, false, n);
    forall i | 0 <= i < |live|
      ensures TextOf(s'.ids, s'.rows, live[i].key) == n <==> Clashes(s, false, b, live[i], t, n)
      ensures s.rows[live[i].row].domain != n
    {
      assert Shows(s, s', t, n, live[i]) && live[i] in live;
    }
    if !SlotIsFree(s, false, t, n) {
      var i :| 0 <= i < |live| && Clashes(s, false, b, live[i], t, n);
      assert live[i] in live && Shows(s, s', t, n, live[i]);
    } else {
      OtherNameStays(s, g, e, false, n);
    }
  }
}
