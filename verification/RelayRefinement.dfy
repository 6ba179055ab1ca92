/** The hash table against a simple cache: what each of its operations does to lookups. */
module RelayRefinement {
  import opened HashChains
  import opened HashTables
  import opened DnsRecords
  import opened RelayState
  import opened RelayIsolation
  import opened RelayCache
  import opened RelayRuns
  import opened Options

  /** A simple cache: name to row. */
  type Cache = map<string, DnsRow>

  function Get(m: Cache, url: string): Option<DnsRow> {
    if url in m then Some(m[url]) else None
  }

  ghost predicate Agree(s: State, m: Cache)
    requires Shape(s)
  {
    forall url :: Lookup(s, url) == Get(m, url)
  }

  /** The first address in an answer is kept unless the name is known. */
  function AddAll(m: Cache, url: string, rs: seq<Record>, now: int): Cache
    decreases |rs|
  {
    if rs == [] then m
    else AddAll(if rs[0].rtype == TYPE_A && url !in m then m[url := RowFor(url, rs[0], now)] else m, url, rs[1..], now)
  }

  /** What an event does to a simple cache: a request drops its name once expired, an answer that
      is taken in adds the first address for the name the slot was taken for. */
  ghost function SimpleStep(m: Cache, s: State, e: Event): Cache
    requires Shape(s) && ValidEvent(e)
  {
    if e.Request? then
      if Accepted(e) && QueryType(e.message) != TYPE_PTR && e.url.value in m && m[e.url.value].ttl <= e.now
      then m - {e.url.value} else m
    else if TakenIn(s, e) then AddAll(m, s.ids[e.message.id].url, Answers(e.message).value, e.now)
    else m
  }

  // ---------------------------------------------------------------- removing

  /** The name survives the loss of the entries from `from` to `p`: an entry of that name stands
      before them, or the first one behind them leads to a row equal to that of the first among
      them. */
  ghost predicate Covered(rows: seq<DnsRow>, live: seq<Content>, from: nat, p: nat, n: string)
    requires from <= p < |live|
  {
    || (exists k :: 0 <= k < from && Names(rows, live[k], n))
    || FindRow(rows, live[p + 1..], n) == FindRow(rows, live[from..p + 1], n)
  }

  /** Every neighbour that a removal takes along has a name that survives. */
  ghost predicate LossIsHarmless(s: State, url: string)
    requires Shape(s) && Where(s, url).Some?
  {
    var b, p := BucketOf(url), Where(s, url).value;
    var live, from := Live(s.table[b]), LossStart(s.table[b], p);
    from <= p < |live| && forall i :: from <= i < p ==> NameIsCovered(s.rows, live, from, p, live[i])
  }

  ghost predicate NameIsCovered(rows: seq<DnsRow>, live: seq<Content>, from: nat, p: nat, c: Content)
    requires from <= p < |live|
  {
    c.Entry? && c.row < |rows| ==> Covered(rows, live, from, p, rows[c.row].domain)
  }

  /** The name is dropped, and no other name is affected. */
  ghost predicate DropsOnly(s: State, s': State, url: string)
    requires Shape(s) && Shape(s')
  {
    forall n :: Lookup(s', n) == if n == url then None else Lookup(s, n)
  }

  lemma {:induction false} FoundFirst(s: State, g: set<DnsRow>, url: string)
    requires Sound(s, true, g) && Where(s, url).Some?
    ensures var live, p := Live(s.table[BucketOf(url)]), Where(s, url).value;
      && p < |live| && Names(s.rows, live[p], url) && FindRow(s.rows, live[..p], url).None?
      && s.rows[live[p].row] == Lookup(s, url).value
  {
    var b := BucketOf(url);
    LiveEntriesAreGood(s, true, g, b);
    FirstOfChain(s, g, b, s.table[b], url);
    FoundIsLive(s, url);
    LiveIsAPrefix(s.table[b]);
  }

  lemma {:induction false} FirstOfChain(s: State, g: set<DnsRow>, b: nat, chain: Chain, url: string)
    requires |s.rows| == MAX_AMOUNT
    requires forall i :: 0 <= i < |Live(chain)| ==> GoodEntry(s, true, g, b, Live(chain)[i])
    requires Find(chain, TextsOf(s.ids, s.rows), url).Some?
    ensures var p := Find(chain, TextsOf(s.ids, s.rows), url).value;
      && p < |Live(chain)| && FindRow(s.rows, Live(chain)[..p], url).None?
      && Names(s.rows, chain[p].content, url)
  {
    var texts := TextsOf(s.ids, s.rows);
    assert GoodEntry(s, true, g, b, Live(chain)[0]);
    assert Live(chain)[1..] == Live(chain[1..]);
    if texts(chain[0].content.key) != url {
      FirstOfChain(s, g, b, chain[1..], url);
      var p := Find(chain, texts, url).value;
      assert Live(chain)[..p][1..] == Live(chain[1..])[..p - 1];
    } else {
      assert Live(chain)[..0] == [];
    }
  }

  lemma {:induction false} Thirds(rows: seq<DnsRow>, live: seq<Content>, from: nat, to: nat, n: string)
    requires from <= to <= |live|
    ensures var l, r := FindRow(rows, live[..from], n), FindRow(rows, live[to..], n);
      var c := FindRow(rows, live[from..to], n);
      && FindRow(rows, live, n) == (if l.Some? then l else if c.Some? then c else r)
      && FindRow(rows, Without(live, from, to), n) == (if l.Some? then l else r)
  {
    assert live == live[..from] + (live[from..to] + live[to..]);
    FindRowConcat(rows, live[..from], live[from..to] + live[to..], n);
    FindRowConcat(rows, live[from..to], live[to..], n);
    FindRowConcat(rows, live[..from], live[to..], n);
  }

  /** For the name of a lost entry this is what keeps its row first. */
  lemma {:induction false} CoveredIff(rows: seq<DnsRow>, live: seq<Content>, from: nat, p: nat, i: nat, n: string)
    requires from <= i <= p < |live| && Names(rows, live[i], n)
    ensures Covered(rows, live, from, p, n) <==>
      FindRow(rows, Without(live, from, p + 1), n) == FindRow(rows, live, n)
  {
    var front, mid := live[..from], live[from..p + 1];
    Thirds(rows, live, from, p + 1, n);
    FindRowNone(rows, front, n);
    FindRowNone(rows, mid, n);
    assert mid[i - from] == live[i];
    assert forall k :: 0 <= k < from ==> front[k] == live[k];
  }

  /** A dynamic entry that is removed leaves no other of its name. */
  lemma {:induction false} RemovedNameIsGone(rows: seq<DnsRow>, live: seq<Content>, from: nat, p: nat, url: string)
    requires from <= p < |live| && Unique(rows, live) && live[p].Entry? && live[p].key.Url?
    requires Names(rows, live[p], url) && FindRow(rows, live[..p], url).None?
    ensures FindRow(rows, Without(live, from, p + 1), url).None?
  {
    var w := Without(live, from, p + 1);
    FindRowNone(rows, live[..p], url);
    FindRowNone(rows, w, url);
    forall i | 0 <= i < |w| ensures !Names(rows, w[i], url) {
      if i < from {
        assert w[i] == live[..p][i];
      } else {
        assert w[i] == live[i + p + 1 - from] && !SameName(rows, live[p], live[i + p + 1 - from]);
      }
    }
  }

  /** A name other than the removed one keeps its row if it is covered whenever a neighbour bears it. */
  lemma {:induction false} OtherRowStays(rows: seq<DnsRow>, live: seq<Content>, from: nat, p: nat, n: string)
    requires from <= p < |live| && !Names(rows, live[p], n)
    requires forall i :: from <= i < p ==> NameIsCovered(rows, live, from, p, live[i])
    ensures FindRow(rows, Without(live, from, p + 1), n) == FindRow(rows, live, n)
  {
    var mid := live[from..p + 1];
    Thirds(rows, live, from, p + 1, n);
    FindRowNone(rows, mid, n);
    if FindRow(rows, mid, n).Some? {
      var i :| 0 <= i < |mid| && Names(rows, mid[i], n);
      assert mid[i] == live[from + i] && NameIsCovered(rows, live, from, p, live[from + i]);
      CoveredIff(rows, live, from, p, from + i, n);
    }
  }

  /** Lookups after a removal, told from the rows. */
  lemma {:induction false} AfterRemoval(s: State, g: set<DnsRow>, url: string)
    requires Sound(s, true, g) && Where(s, url).Some? && !Removed(s, url).wild && Lookup(s, url).value.ttl != ETERNAL
    ensures var b, p := BucketOf(url), Where(s, url).value;
      var live, from := Live(s.table[b]), LossStart(s.table[b], p);
      && from <= p < |live| && Unique(s.rows, live)
      && live[p].Entry? && live[p].key.Url? && Names(s.rows, live[p], url) && FindRow(s.rows, live[..p], url).None?
      && (forall n :: BucketOf(n) == b ==> Lookup(Removed(s, url), n) == FindRow(s.rows, Without(live, from, p + 1), n))
      && (forall n :: BucketOf(n) != b ==> Lookup(Removed(s, url), n) == Lookup(s, n))
  {
    hide Remove, LossStart, Without, Live, FindRow, Unique;
    var b, p := BucketOf(url), Where(s, url).value;
    var s' := Removed(s, url);
    FoundFirst(s, g, url);
    LiveEntriesAreGood(s, true, g, b);
    assert GoodEntry(s, true, g, b, Live(s.table[b])[p]);
    RemovedIsSound(s, true, g, url);
    RemoveLosesARange(s.table[b], p);
    forall n ensures BucketOf(n) == b ==>
        Lookup(s', n) == FindRow(s.rows, Without(Live(s.table[b]), LossStart(s.table[b], p), p + 1), n)
      ensures BucketOf(n) != b ==> Lookup(s', n) == Lookup(s, n)
    {
      LookupIsFindRow(s, g, n);
      LookupIsFindRow(s', g, n);
    }
  }

  /** A neighbour whose name does not survive shows. */
  lemma {:induction false} HarmfulLossShows(s: State, g: set<DnsRow>, url: string) returns (n: string)
    requires Sound(s, true, g) && Where(s, url).Some? && !Removed(s, url).wild && Lookup(s, url).value.ttl != ETERNAL
    requires !LossIsHarmless(s, url)
    ensures n != url && Lookup(s, n).Some? && Lookup(Removed(s, url), n) != Lookup(s, n)
  {
    hide Remove, LossStart, Without, Removed, Live, FindRow, Find, Unique, GoodEntry;
    var b, p := BucketOf(url), Where(s, url).value;
    var live, from := Live(s.table[b]), LossStart(s.table[b], p);
    AfterRemoval(s, g, url);
    var i :| from <= i < p && !NameIsCovered(s.rows, live, from, p, live[i]);
    n := s.rows[live[i].row].domain;
    LiveNameIsFound(s, g, b, i);
    CoveredIff(s.rows, live, from, p, i, n);
    LookupIsFindRow(s, g, n);
    FindRowNone(s.rows, live[..p], url);
    assert live[..p][i] == live[i];
  }

  lemma {:induction false} LiveNameIsFound(s: State, g: set<DnsRow>, b: nat, i: nat)
    requires Sound(s, true, g) && b < MAX_AMOUNT && i < |Live(s.table[b])|
    ensures var c := Live(s.table[b])[i];
      && c.Entry? && c.row < MAX_AMOUNT && BucketOf(s.rows[c.row].domain) == b
      && Names(s.rows, c, s.rows[c.row].domain) && Lookup(s, s.rows[c.row].domain).Some?
  {
    LiveEntriesAreGood(s, true, g, b);
    assert GoodEntry(s, true, g, b, Live(s.table[b])[i]);
    var n := s.rows[Live(s.table[b])[i].row].domain;
    LookupIsFindRow(s, g, n);
    FindRowNone(s.rows, Live(s.table[b]), n);
  }

  /** A removal of an expired entry drops its name and affects no other, exactly when the names
      of the entries taken along survive. */
  lemma {:induction false} RemovalDropsOneIff(s: State, g: set<DnsRow>, url: string)
    requires Sound(s, true, g) && Where(s, url).Some? && !Removed(s, url).wild && Lookup(s, url).value.ttl != ETERNAL
    ensures DropsOnly(s, Removed(s, url), url) <==> LossIsHarmless(s, url)
  {
    hide Remove, LossStart, Without, Removed, Live, FindRow;
    var b, p := BucketOf(url), Where(s, url).value;
    var live, from := Live(s.table[b]), LossStart(s.table[b], p);
    AfterRemoval(s, g, url);
    if LossIsHarmless(s, url) {
      forall n ensures Lookup(Removed(s, url), n) == if n == url then None else Lookup(s, n) {
        LookupIsFindRow(s, g, n);
        if n == url {
          RemovedNameIsGone(s.rows, live, from, p, url);
        } else if BucketOf(n) == b {
          OtherRowStays(s.rows, live, from, p, n);
        }
      }
    } else {
      var n := HarmfulLossShows(s, g, url);
    }
  }

  /** The stored `prev` of the node is NULL or names the node right before it. */
  predicate CleanLink(chain: Chain, p: nat)
    requires p < |chain|
  {
    chain[p].prev.Null? || (p > 0 && chain[p].prev == At(chain[p - 1].id))
  }

  /** No two of the entries have the same name. */
  ghost predicate Distinct(rows: seq<DnsRow>, live: seq<Content>) {
    forall i, j :: 0 <= i < j < |live| ==> !SameName(rows, live[i], live[j])
  }

  /** In a bucket without repeated names that is a matter of the stored `prev` alone. */
  lemma {:induction false} HarmlessIffLinked(s: State, g: set<DnsRow>, url: string)
    requires Sound(s, true, g) && Where(s, url).Some? && !Removed(s, url).wild
    requires Distinct(s.rows, Live(s.table[BucketOf(url)]))
    ensures LossIsHarmless(s, url) <==> CleanLink(s.table[BucketOf(url)], Where(s, url).value)
  {
    hide LossStart, CleanLink, Live, FindRow, Distinct, Find;
    var b, p := BucketOf(url), Where(s, url).value;
    var live, from := Live(s.table[b]), LossStart(s.table[b], p);
    FoundIsLive(s, url);
    LinkedLosesNone(s, g, b, p);
    if !CleanLink(s.table[b], p) {
      LiveNameIsFound(s, g, b, p - 1);
      var n := s.rows[live[p - 1].row].domain;
      NeighbourIsLost(s.rows, live, from, p, n);
      LookupIsFindRow(s, g, n);
      CoveredIff(s.rows, live, from, p, p - 1, n);
      assert !NameIsCovered(s.rows, live, from, p, live[p - 1]);
    }
  }

  lemma {:induction false} LinkedLosesNone(s: State, g: set<DnsRow>, b: nat, p: nat)
    requires Sound(s, true, g) && b < MAX_AMOUNT && p < |Live(s.table[b])| && Remove(s.table[b], p).Some?
    ensures LossStart(s.table[b], p) <= p && (LossStart(s.table[b], p) == p <==> CleanLink(s.table[b], p))
  {
    LiveEntriesAreGood(s, true, g, b);
    RemoveIsExact(s.table[b], p);
    RemoveLosesARange(s.table[b], p);
    var live, from := Live(s.table[b]), LossStart(s.table[b], p);
    assert |Without(live, from, p + 1)| == |live| - (p + 1 - from);
  }

  lemma {:induction false} NeighbourIsLost(rows: seq<DnsRow>, live: seq<Content>, from: nat, p: nat, n: string)
    requires from < p < |live| && Names(rows, live[p - 1], n)
    requires Distinct(rows, live)
    ensures FindRow(rows, Without(live, from, p + 1), n).None?
  {
    var w := Without(live, from, p + 1);
    FindRowNone(rows, w, n);
    forall i | 0 <= i < |w| ensures !Names(rows, w[i], n) {
      var k := if i < from then i else i + (p + 1 - from);
      assert w[i] == live[k];
      if k < p - 1 { assert !SameName(rows, live[k], live[p - 1]); }
      if k > p - 1 { assert !SameName(rows, live[p - 1], live[k]); }
    }
  }

  // ---------------------------------------------------------------- inserting

  /** An insertion into the bucket will be seen. */
  predicate Open(chain: Chain) {
    chain != [] && (chain[0].content.Vacant? || |Live(chain)| == |chain|)
  }

  /** The answer holds an address. */
  predicate HasAddress(rs: seq<Record>) {
    rs != [] && (rs[0].rtype == TYPE_A || HasAddress(rs[1..]))
  }

  /** Rows already written keep their names when only new rows are written. */
  lemma {:induction false} OldRowsStay(s: State, exact: bool, g: set<DnsRow>, s': State, part: seq<Content>, b: nat,
                                       url: string)
    requires Sound(s, exact, g) && b < MAX_AMOUNT && |s'.rows| == MAX_AMOUNT && part <= Live(s.table[b])
    requires forall r :: 0 <= r < MAX_AMOUNT && MAX_AMOUNT + r < s.next ==> s'.rows[r] == s.rows[r]
    ensures FindRow(s'.rows, part, url) == FindRow(s.rows, part, url)
  {
    LiveEntriesAreGood(s, exact, g, b);
    forall i | 0 <= i < |part| ensures GoodEntry(s, exact, g, b, part[i]) {
      assert part[i] == Live(s.table[b])[i];
    }
    FindRowSameRows(s.rows, s'.rows, part, url);
  }

  /** A row written under a new name into an open bucket adds that name; behind a vacant node it adds
      nothing; no other lookup changes. */
  lemma {:induction false} WritingAddsOne(s: State, g: set<DnsRow>, row: DnsRow, key: KeyRef, rowCount: nat, n: string)
    requires Sound(s, true, g) && s.next < 2 * MAX_AMOUNT && KeyShows(s, key, row) && NewName(s, row, key)
    requires rowCount <= MAX_AMOUNT && (s.next + 1 < 2 * MAX_AMOUNT ==> rowCount == s.next + 1 - MAX_AMOUNT)
    ensures Shape(Written(s, row, key, rowCount))
    ensures Lookup(Written(s, row, key, rowCount), n) ==
      if Lookup(s, n).None? && n == row.domain && Open(s.table[BucketOf(n)]) then Some(row) else Lookup(s, n)
  {
    hide Insert, Live, FindRow, NewName, KeyShows;
    var s', b := Written(s, row, key, rowCount), BucketOf(n);
    WriteKeepsSound(s, true, g, row, key, rowCount);
    LookupIsFindRow(s, g, n);
    LookupIsFindRow(s', g + {row}, n);
    LiveEntriesAreGood(s, true, g, b);
    InsertIsSeen(s.table[BucketOf(row.domain)], s.next, key, s.rowCount);
    OldRowsStay(s, true, g, s', Live(s.table[b]), b, n);
    FindRowConcat(s'.rows, Live(s.table[b]), [Entry(key, s.rowCount)], n);
    OnlyRow(s'.rows, Entry(key, s.rowCount), n);
  }

  lemma {:induction false} OnlyRow(rows: seq<DnsRow>, c: Content, n: string)
    ensures FindRow(rows, [c], n) == if Names(rows, c, n) then Some(rows[c.row]) else None
  {
    assert [c][1..] == [];
  }

  /** The same for the first address of an answer. */
  lemma {:induction false} AnswerAddsOne(s: State, g: set<DnsRow>, slot: nat, r: Record, now: int, n: string)
    requires Sound(s, true, g) && slot < MAX_AMOUNT && r.rtype == TYPE_A && !s.wild
    requires Where(s, s.ids[slot].url).None?
    requires !CacheOne(s, slot, r, now).wild && CacheOne(s, slot, r, now).next <= 2 * MAX_AMOUNT
    ensures var url, s' := s.ids[slot].url, CacheOne(s, slot, r, now);
      && Shape(s')
      && Lookup(s', n) == if n == url && Open(s.table[BucketOf(n)]) then Some(RowFor(url, r, now)) else Lookup(s, n)
  {
    var url := s.ids[slot].url;
    LookupIsFindRow(s, g, url);
    FindRowNone(s.rows, Live(s.table[BucketOf(url)]), url);
    WritingAddsOne(s, g, RowFor(url, r, now), Url(slot), (s.rowCount + 1) % MAX_AMOUNT, n);
  }

  // ---------------------------------------------------------------- the start of a run

  /** The simple cache a file describes: the first line for a name counts. */
  function FileCache(m: Cache, lines: seq<string>): Cache
    decreases |lines|
  {
    if lines == [] then m else FileCache(AddLine(m, lines[0]), lines[1..])
  }

  function AddLine(m: Cache, line: string): Cache {
    if ParseLine(line).None? || LineRow(line).domain in m then m else m[LineRow(line).domain := LineRow(line)]
  }

  ghost predicate AllOpen(s: State)
    requires Shape(s)
  {
    forall b :: 0 <= b < MAX_AMOUNT ==> Open(s.table[b])
  }

  lemma {:induction false} LineAddsOne(s: State, g: set<DnsRow>, m: Cache, line: string)
    requires Loading(s, g) && AllOpen(s) && Agree(s, m) && !LoadLine(s, line).wild
    ensures Shape(LoadLine(s, line)) && Agree(LoadLine(s, line), AddLine(m, line))
  {
    hide Fresh, Insert, NewName;
    var row, s' := LineRow(line), LoadLine(s, line);
    LineKeepsLoading(s, g, line);
    NewLine(s, row);
    forall n ensures Lookup(s', n) == Get(AddLine(m, line), n) {
      assert Lookup(s, n) == Get(m, n) && Open(s.table[BucketOf(n)]);
      WritingAddsOne(s, g, row, Domain(s.rowCount), s.rowCount + 1, n);
    }
  }

  lemma {:induction false} LineKeepsOpen(s: State, line: string)
    requires Shape(s) && AllOpen(s)
    ensures Shape(LoadLine(s, line)) && AllOpen(LoadLine(s, line))
  {
    LoadKeepsShape(s, line);
    if ParseLine(line).Some? && s.rowCount < MAX_AMOUNT {
      InsertIsSeen(s.table[BucketOf(LineRow(line).domain)], s.next, Domain(s.rowCount), s.rowCount);
      assert Open(s.table[BucketOf(LineRow(line).domain)]);
    }
  }

  lemma {:induction false} LoadAgrees(s: State, g: set<DnsRow>, m: Cache, lines: seq<string>)
    requires Loading(s, g) && AllOpen(s) && Agree(s, m) && !Load(s, lines).wild
    ensures Shape(Load(s, lines)) && AllOpen(Load(s, lines)) && Agree(Load(s, lines), FileCache(m, lines))
    decreases |lines|
  {
    hide Agree, AllOpen, Fresh, GoodBucket, LoadLine;
    if lines != [] {
      LoadSplits(s, lines);
      LineAddsOne(s, g, m, lines[0]);
      LineKeepsOpen(s, lines[0]);
      LineKeepsLoading(s, g, lines[0]);
      LoadAgrees(LoadLine(s, lines[0]), g + {LineRow(lines[0])}, AddLine(m, lines[0]), lines[1..]);
    }
  }

  /** Loading a file of any content leaves the cache the file describes, collisions and repeated
      names included. */
  lemma {:induction false} FileIsServed(lines: seq<string>)
    requires !Loaded(lines).wild
    ensures Agree(Loaded(lines), FileCache(map[], lines)) && AllOpen(Loaded(lines))
    ensures Loading(Loaded(lines), FileRows(lines))
  {
    var s := Boot();
    BootIsSound();
    BootIsFresh();
    forall url ensures Lookup(s, url) == Get(map[], url) {
      LookupIsFindRow(s, {}, url);
      assert Live(s.table[BucketOf(url)]) == [];
    }
    LoadAgrees(s, {}, map[], lines);
    LoadedIsSound(lines);
  }
}
