/** What the cache holds over whole runs. */
module RelayCache {
  import opened HashChains
  import opened HashTables
  import opened RelayState
  import opened Options

  // ---------------------------------------------------------------- rows behind live entries

  /** The first row named `url` among the live entries. */
  function FindRow(rows: seq<DnsRow>, live: seq<Content>, url: string): Option<DnsRow> {
    if live == [] then None
    else if Names(rows, live[0], url) then Some(rows[live[0].row])
    else FindRow(rows, live[1..], url)
  }

  predicate Names(rows: seq<DnsRow>, c: Content, url: string) {
    c.Entry? && c.row < |rows| && rows[c.row].domain == url
  }

  lemma {:induction false} FindRowConcat(rows: seq<DnsRow>, a: seq<Content>, b: seq<Content>, url: string)
    ensures FindRow(rows, a + b, url) ==
      if FindRow(rows, a, url).Some? then FindRow(rows, a, url) else FindRow(rows, b, url)
  {
    if a == [] {
      assert a + b == b;
    } else {
      assert (a + b)[1..] == a[1..] + b;
      FindRowConcat(rows, a[1..], b, url);
    }
  }

  lemma {:induction false} FindRowNone(rows: seq<DnsRow>, live: seq<Content>, url: string)
    ensures FindRow(rows, live, url).None? <==> forall i :: 0 <= i < |live| ==> !Names(rows, live[i], url)
  {
    if live != [] {
      FindRowNone(rows, live[1..], url);
      assert forall i :: 1 <= i < |live| ==> live[i] == live[1..][i - 1];
    }
  }

  lemma {:induction false} FindRowSameRows(rows: seq<DnsRow>, rows': seq<DnsRow>, live: seq<Content>, url: string)
    requires |rows| == |rows'|
    requires forall i :: 0 <= i < |live| && live[i].Entry? && live[i].row < |rows| ==>
      rows'[live[i].row] == rows[live[i].row]
    ensures FindRow(rows', live, url) == FindRow(rows, live, url)
  {
    if live != [] {
      FindRowSameRows(rows, rows', live[1..], url);
    }
  }

  /** Two live entries of a bucket share a name only if both come from the file. */
  ghost predicate Unique(rows: seq<DnsRow>, live: seq<Content>) {
    forall i, j :: 0 <= i < j < |live| && SameName(rows, live[i], live[j]) ==>
      live[i].key.Domain? && live[j].key.Domain?
  }

  ghost predicate SameName(rows: seq<DnsRow>, c: Content, d: Content) {
    c.Entry? && d.Entry? && c.row < |rows| && d.row < |rows| && rows[c.row].domain == rows[d.row].domain
  }

  // ---------------------------------------------------------------- the invariant

  /** The key shows the name of the row.  Unless `exact`, it may also show a name that no lookup in
      bucket `b` asks for. */
  ghost predicate ShowsName(s: State, exact: bool, b: nat, c: Content)
    requires c.Entry? && c.row < |s.rows|
  {
    match c.key
    case Domain(r) => r == c.row && s.rows[c.row].ttl == ETERNAL
    case Url(t) =>
      var text := TextOf(s.ids, s.rows, c.key);
      text == s.rows[c.row].domain || (!exact && BucketOf(text) != b)
  }

  /** The entry leads to a row that is known to be genuine, in the bucket of that row's name. */
  ghost predicate GoodEntry(s: State, exact: bool, g: set<DnsRow>, b: nat, c: Content)
    requires |s.rows| == MAX_AMOUNT
  {
    && c.Entry? && c.row < MAX_AMOUNT && MAX_AMOUNT + c.row < s.next
    && s.rows[c.row] in g && BucketOf(s.rows[c.row].domain) == b
    && ShowsName(s, exact, b, c)
  }

  ghost predicate GoodBucket(s: State, exact: bool, g: set<DnsRow>, b: nat)
    requires |s.rows| == MAX_AMOUNT && b < |s.table|
  {
    var live := Live(s.table[b]);
    && (forall i :: 0 <= i < |live| ==> GoodEntry(s, exact, g, b, live[i]))
    && (forall i :: 0 <= i < |s.table[b]| ==> s.table[b][i].id < s.next)
    && DistinctIds(s.table[b])
    && (exact ==> Unique(s.rows, live))
  }

  /** `next - 1024` rows have been written, their ring has not wrapped, and what lookups can see in
      any bucket is good with respect to the genuine rows `g`. */
  ghost predicate Sound(s: State, exact: bool, g: set<DnsRow>) {
    && Shape(s)
    && MAX_AMOUNT <= s.next <= 2 * MAX_AMOUNT
    && (s.next < 2 * MAX_AMOUNT ==> s.rowCount == s.next - MAX_AMOUNT)
    && (forall b :: 0 <= b < MAX_AMOUNT ==> GoodBucket(s, exact, g, b))
  }

  lemma {:induction false} BootIsSound()
    ensures Sound(Boot(), true, {})
  {
    var s := Boot();
    forall b | 0 <= b < MAX_AMOUNT ensures GoodBucket(s, true, {}, b) {
      assert Live(s.table[b]) == [];
    }
  }

  lemma {:induction false} ExactIsSound(s: State, g: set<DnsRow>)
    requires Sound(s, true, g)
    ensures Sound(s, false, g)
  {
    forall b | 0 <= b < MAX_AMOUNT ensures GoodBucket(s, false, g, b) {
      LiveEntriesAreGood(s, true, g, b);
    }
  }

  lemma {:induction false} LiveEntriesAreGood(s: State, exact: bool, g: set<DnsRow>, b: nat)
    requires Sound(s, exact, g) && b < MAX_AMOUNT
    ensures GoodBucket(s, exact, g, b)
    ensures forall i :: 0 <= i < |Live(s.table[b])| ==> GoodEntry(s, exact, g, b, Live(s.table[b])[i])
  {
  }

  /** In an exactly sound state lookups can be told from the rows alone. */
  lemma {:induction false} LookupIsFindRow(s: State, g: set<DnsRow>, url: string)
    requires Sound(s, true, g)
    ensures Lookup(s, url) == FindRow(s.rows, Live(s.table[BucketOf(url)]), url)
  {
    var b := BucketOf(url);
    LiveEntriesAreGood(s, true, g, b);
    FindIsFindRow(s, g, b, s.table[b], url);
  }

  lemma {:induction false} FindIsFindRow(s: State, g: set<DnsRow>, b: nat, chain: Chain, url: string)
    requires |s.rows| == MAX_AMOUNT
    requires forall i :: 0 <= i < |Live(chain)| ==> GoodEntry(s, true, g, b, Live(chain)[i])
    ensures var p := Find(chain, TextsOf(s.ids, s.rows), url);
      && (p.Some? ==> chain[p.value].content.row < MAX_AMOUNT)
      && FindRow(s.rows, Live(chain), url) == (if p.None? then None else Some(s.rows[chain[p.value].content.row]))
  {
    if chain != [] && chain[0].content.Entry? {
      assert GoodEntry(s, true, g, b, Live(chain)[0]);
      assert Live(chain)[1..] == Live(chain[1..]);
      FindIsFindRow(s, g, b, chain[1..], url);
    }
  }

  /** A found row is genuine and has the name asked for. */
  lemma {:induction false} LookupIsGenuine(s: State, exact: bool, g: set<DnsRow>, url: string)
    requires Sound(s, exact, g) && Lookup(s, url).Some?
    ensures Lookup(s, url).value in g && Lookup(s, url).value.domain == url
  {
    var b := BucketOf(url);
    var p := Where(s, url).value;
    LiveEntriesAreGood(s, exact, g, b);
    FoundIsLive(s, url);
    LiveIsAPrefix(s.table[b]);
    assert GoodEntry(s, exact, g, b, Live(s.table[b])[p]);
  }

  lemma {:induction false} FoundIsLive(s: State, url: string)
    requires Shape(s) && Where(s, url).Some?
    ensures Where(s, url).value < |Live(s.table[BucketOf(url)])|
  {
    FindSeesLive(s.table[BucketOf(url)], TextsOf(s.ids, s.rows), url);
  }

  // ---------------------------------------------------------------- taking a slot

  /** The entry takes its name from slot `t`, and `url` in that slot would be a different one.
      Unless `exact`, this counts only if lookups for `url` come to bucket `b`. */
  ghost predicate Clashes(s: State, exact: bool, b: nat, c: Content, t: nat, url: string) {
    c.Entry? && c.key == Url(t) && c.row < |s.rows| && s.rows[c.row].domain != url && (exact || BucketOf(url) == b)
  }

  /** Writing `url` into slot `t` clashes with no live entry. */
  ghost predicate SlotIsFree(s: State, exact: bool, t: nat, url: string)
    requires Shape(s)
  {
    forall b, i :: 0 <= b < MAX_AMOUNT && 0 <= i < |Live(s.table[b])| ==>
      !Clashes(s, exact, b, Live(s.table[b])[i], t, url)
  }

  lemma {:induction false} NewIdsKeepSound(s: State, exact: bool, g: set<DnsRow>, ids: seq<IdRow>, idCount: nat)
    requires Sound(s, exact, g) && |ids| == MAX_AMOUNT && idCount < MAX_AMOUNT
    requires forall t :: 0 <= t < MAX_AMOUNT && ids[t].url != s.ids[t].url ==> SlotIsFree(s, exact, t, ids[t].url)
    ensures Sound(s.(ids := ids, idCount := idCount), exact, g)
  {
    var s' := s.(ids := ids, idCount := idCount);
    forall b | 0 <= b < MAX_AMOUNT ensures GoodBucket(s', exact, g, b) {
      LiveEntriesAreGood(s, exact, g, b);
      var live := Live(s.table[b]);
      forall i | 0 <= i < |live| ensures GoodEntry(s', exact, g, b, live[i]) {
        assert GoodEntry(s, exact, g, b, live[i]);
        LiveInRange(s, b, i);
        if live[i].key.Url? && ids[live[i].key.slot].url != s.ids[live[i].key.slot].url {
          assert !Clashes(s, exact, b, live[i], live[i].key.slot, ids[live[i].key.slot].url);
        }
      }
    }
  }

  lemma {:induction false} LiveInRange(s: State, b: nat, i: nat)
    requires Shape(s) && b < MAX_AMOUNT && i < |Live(s.table[b])|
    ensures InRange(Live(s.table[b])[i]) && Live(s.table[b])[i].Entry?
  {
    LiveIsAPrefix(s.table[b]);
    assert GoodChain(s.table[b]);
  }

  lemma {:induction false} AllocateKeepsSound(s: State, exact: bool, g: set<DnsRow>, e: Event, finished: bool)
    requires Sound(s, exact, g) && Accepted(e) && SlotIsFree(s, exact, s.idCount, e.url.value)
    ensures Sound(Allocate(s, e, finished), exact, g)
  {
    var s' := Allocate(s, e, finished);
    NewIdsKeepSound(s, exact, g, s'.ids, s'.idCount);
  }

  lemma {:induction false} FinishKeepsSound(s: State, exact: bool, g: set<DnsRow>, slot: nat)
    requires Sound(s, exact, g) && slot < MAX_AMOUNT
    ensures Sound(MarkFinished(s, slot), exact, g)
  {
    NewIdsKeepSound(s, exact, g, MarkFinished(s, slot).ids, s.idCount);
  }

  // ---------------------------------------------------------------- removing

  /** The position before the removal of the node that is at position `i` after it. */
  function Origin(chain: Chain, p: nat, i: nat): (k: nat)
    requires p < |chain|
    ensures k >= i
  {
    if chain[p].prev.Null? then (if i <= p then i else i + 1)
    else
      var j := Position(chain[..p], chain[p].prev.id);
      if i <= j then i else i + (p - j)
  }

  lemma {:induction false} RelinkKeepsNodes(tail: Chain, prev: Link)
    ensures |Relink(tail, prev)| == |tail|
    ensures forall k :: 0 <= k < |tail| ==> Relink(tail, prev)[k].id == tail[k].id
  {
  }

  /** A removal keeps the order of nodes and adds none. */
  lemma {:induction false} RemoveKeepsNodes(chain: Chain, p: nat, i: nat)
    requires p < |chain| && Remove(chain, p).Some? && i < |Remove(chain, p).value|
    ensures Origin(chain, p, i) < |chain| && Remove(chain, p).value[i].id == chain[Origin(chain, p, i)].id
  {
    hide Relink, Position;
    if chain[p].prev.Null? {
      if p + 1 < |chain| { RelinkKeepsNodes(chain[p + 2..], At(chain[p].id)); }
    } else {
      RelinkKeepsNodes(chain[p + 1..], chain[p].prev);
    }
  }

  lemma {:induction false} RemoveKeepsIds(chain: Chain, p: nat, next: nat)
    requires p < |chain| && Remove(chain, p).Some? && DistinctIds(chain)
    requires forall i :: 0 <= i < |chain| ==> chain[i].id < next
    ensures DistinctIds(Remove(chain, p).value)
    ensures forall i :: 0 <= i < |Remove(chain, p).value| ==> Remove(chain, p).value[i].id < next
  {
    hide Remove;
    var after := Remove(chain, p).value;
    forall i | 0 <= i < |after| ensures after[i].id < next { RemoveKeepsNodes(chain, p, i); }
    forall x, y | 0 <= x < y < |after| ensures after[x].id != after[y].id {
      RemoveKeepsNodes(chain, p, x);
      RemoveKeepsNodes(chain, p, y);
      assert Origin(chain, p, x) < Origin(chain, p, y);
    }
  }

  lemma {:induction false} UniqueWithout(rows: seq<DnsRow>, live: seq<Content>, from: nat, to: nat)
    requires from <= to <= |live| && Unique(rows, live)
    ensures Unique(rows, Without(live, from, to))
  {
    var w := Without(live, from, to);
    forall i, j | 0 <= i < j < |w| && SameName(rows, w[i], w[j]) ensures w[i].key.Domain? && w[j].key.Domain? {
      var i' := if i < from then i else i + (to - from);
      var j' := if j < from then j else j + (to - from);
      assert w[i] == live[i'] && w[j] == live[j'];
    }
  }

  lemma {:induction false} RemoveKeepsSound(s: State, exact: bool, g: set<DnsRow>, b: nat, p: nat)
    requires Sound(s, exact, g) && b < MAX_AMOUNT && p < |Live(s.table[b])|
    requires Remove(s.table[b], p).Some?
    ensures Sound(s.(table := s.table[b := Remove(s.table[b], p).value]), exact, g)
  {
    hide Remove, LossStart, Live, Unique, ShowsName, GoodChain;
    var chain := s.table[b];
    var live, from := Live(chain), LossStart(chain, p);
    var s' := s.(table := s.table[b := Remove(chain, p).value]);
    RemoveKeepsChain(chain, p);
    LiveEntriesAreGood(s, exact, g, b);
    RemoveKeepsIds(chain, p, s.next);
    RemoveLosesARange(chain, p);
    if exact { UniqueWithout(s.rows, live, from, p + 1); }
    var rest := Without(live, from, p + 1);
    forall i | 0 <= i < |rest| ensures GoodEntry(s', exact, g, b, rest[i]) {
      assert GoodEntry(s, exact, g, b, live[if i < from then i else i + (p + 1 - from)]);
      SameShows(s, s', exact, b, rest[i]);
    }
    forall c | 0 <= c < MAX_AMOUNT ensures GoodBucket(s', exact, g, c) {
      if c != b {
        LiveEntriesAreGood(s, exact, g, c);
        OtherBucket(s, s', exact, g, g, c);
      }
    }
  }

  lemma {:induction false} SameShows(s: State, s': State, exact: bool, b: nat, c: Content)
    requires s'.ids == s.ids && s'.rows == s.rows && c.Entry? && c.row < |s.rows|
    ensures ShowsName(s', exact, b, c) == ShowsName(s, exact, b, c)
  {
  }

  /** A bucket that is not touched stays good when only unused rows are written. */
  lemma {:induction false} OtherBucket(s: State, s': State, exact: bool, g: set<DnsRow>, g': set<DnsRow>, b: nat)
    requires |s.rows| == |s'.rows| == MAX_AMOUNT && b < |s.table| && b < |s'.table|
    requires s'.table[b] == s.table[b] && s'.ids == s.ids && s.next <= s'.next && g <= g'
    requires forall r :: 0 <= r < MAX_AMOUNT && MAX_AMOUNT + r < s.next ==> s'.rows[r] == s.rows[r]
    requires GoodBucket(s, exact, g, b)
    ensures GoodBucket(s', exact, g', b)
  {
    var live := Live(s.table[b]);
    forall i | 0 <= i < |live| ensures GoodEntry(s', exact, g', b, live[i]) {
      assert GoodEntry(s, exact, g, b, live[i]);
    }
    if exact {
      forall i, j | 0 <= i < j < |live| && SameName(s'.rows, live[i], live[j])
        ensures live[i].key.Domain? && live[j].key.Domain?
      {
        assert GoodEntry(s, exact, g, b, live[i]) && GoodEntry(s, exact, g, b, live[j]);
        assert SameName(s.rows, live[i], live[j]);
      }
    }
  }
}
