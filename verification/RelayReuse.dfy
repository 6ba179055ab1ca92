/** A run from the start of the program on which a reused slot makes the cache answer with the
    address of another name. */
module RelayReuse {
  import opened HashChains
  import opened HashTables
  import opened DnsNames
  import opened DnsRecords
  import opened IdRing
  import opened RelayState
  import opened RelayIsolation
  import opened RelayOutputs
  import opened RelayCache
  import opened RelayRuns
  import opened RelayStatics
  import opened RelayStability
  import opened Options

  /** A request for `x`, its answer, and `k` further requests for `x`. */
  function Popular(question: Message, reply: Message, x: string, k: nat): (es: seq<Event>)
    ensures |es| == k + 2
  {
    if k == 0 then [Ask(question, x), Answered(reply, 0)]
    else Popular(question, reply, x, k - 1) + [Ask(question, x)]
  }

  /** The only entry of the bucket of `x` leads to `row` and takes its name from slot 0; `n` slots
      have been taken. */
  ghost predicate Warm(s: State, x: string, row: DnsRow, n: nat) {
    && Shape(s) && !s.wild && s.next == MAX_AMOUNT + 1 && s.idCount == n % MAX_AMOUNT
    && s.rows[0] == row && row.ttl > DAY && s.ids[0].url == x
    && |s.table[BucketOf(x)]| == 1 && s.table[BucketOf(x)][0].content == Entry(Url(0), 0)
  }

  lemma {:induction false} WarmIsFound(s: State, x: string, row: DnsRow, n: nat, url: string)
    requires Warm(s, x, row, n) && BucketOf(url) == BucketOf(x)
    ensures Lookup(s, url) == if url == x then Some(row) else None
    ensures Where(s, url).None? <==> url != x
  {
    assert s.table[BucketOf(x)][1..] == [];
  }

  /** The first answer makes the bucket warm. */
  lemma {:induction false} AnswerWarms(question: Message, reply: Message, x: string, r: Record)
    requires AsksFor(question, reply, x, r) && r.ttl == 1
    ensures var s := Step(Boot(), Ask(question, x)).0;
      && Shape(s) && Warm(Step(s, Answered(reply, 0)).0, x, RowFor(x, r, DAY), 1)
      && NewRows(s, Answered(reply, 0)) == {RowFor(x, r, DAY)}
  {
    hide GoodBucket, FreshKeys, Answers, Step, Find, CacheOne;
    var ask, answer := Ask(question, x), Answered(reply, 0);
    SameAnswer(reply, 0);
    BootIsSound();
    BootIsFresh();
    NotInBoot(x);
    AfterAsking(Boot(), 0, {}, ask);
    var s := Step(Boot(), ask).0;
    AfterAnswer(s, 1, {}, answer, r, x);
    OneAnswer(s, 0, r, DAY);
  }

  lemma {:induction false} NotInBoot(x: string)
    ensures Shape(Boot()) && Where(Boot(), x).None?
  {
  }

  lemma {:induction false} RunOfTwo(s: State, e1: Event, e2: Event)
    requires Shape(s) && ValidEvent(e1) && ValidEvent(e2) && Accepted(e1) && e2.Response? && Bounded(s, [e1, e2])
    ensures var s1 := Run(s, [e1]);
      && s1 == Step(s, e1).0
      && Run(s, [e1, e2]) == Step(s1, e2).0
      && Genuine(s, {}, [e1, e2]) == NewRows(s1, e2) && Allocs(s, [e1, e2]) == 1
  {
    hide Step, Answers;
    var es := [e1, e2];
    assert es[..1] == [e1] && [e1][..0] == [];
    BoundedPrefix(s, es);
    BoundedPrefix(s, [e1]);
    assert Genuine(s, {}, [e1]) == {};
  }

  lemma {:induction false} GetsWarm(question: Message, reply: Message, x: string, r: Record)
    requires AsksFor(question, reply, x, r) && r.ttl == 1
    ensures var es := Popular(question, reply, x, 0);
      && ValidEvents(es) && AllHonest(es)
      && Warm(Run(Boot(), es), x, RowFor(x, r, DAY), 1)
      && Genuine(Boot(), {}, es) == {RowFor(x, r, DAY)} && Allocs(Boot(), es) == 1
  {
    hide Step, Answers, NewRows, RowFor, Warm;
    var ask, answer := Ask(question, x), Answered(reply, 0);
    NotInBoot(x);
    AnswerWarms(question, reply, x, r);
    assert [ask, answer][..1] == [ask] && [ask][..0] == [];
    assert Run(Boot(), [ask]) == Step(Boot(), ask).0;
    assert Run(Boot(), [ask, answer]) == Step(Run(Boot(), [ask]), answer).0;
    WarmIsBounded(Run(Boot(), [ask, answer]), x, RowFor(x, r, DAY), 1);
    RunOfTwo(Boot(), ask, answer);
  }

  lemma {:induction false} StaysWarm(s: State, question: Message, x: string, row: DnsRow, n: nat)
    requires Warm(s, x, row, n) && Probes(question, x)
    ensures Warm(Step(s, Ask(question, x)).0, x, row, n + 1)
  {
    hide Step;
    WarmIsFound(s, x, row, n, x);
    HitTakesASlot(s, Ask(question, x));
    SlotKeepsWarm(s, Ask(question, x), x, row, n);
  }

  lemma {:induction false} SlotKeepsWarm(s: State, e: Event, x: string, row: DnsRow, n: nat)
    requires Warm(s, x, row, n) && Accepted(e) && e.url.value == x
    ensures Warm(Allocate(s, e, true), x, row, n + 1)
  {
    hide GoodChain;
    NextSlot(n);
    AllocateKeepsShape(s, e, true);
  }

  lemma {:induction false} AllocateKeepsShape(s: State, e: Event, finished: bool)
    requires Shape(s) && Accepted(e)
    ensures Shape(Allocate(s, e, finished))
  {
  }

  lemma {:induction false} AsksAndProbes(question: Message, reply: Message, x: string, r: Record)
    requires AsksFor(question, reply, x, r)
    ensures Probes(question, x)
  {
  }

  lemma {:induction false} HitTakesASlot(s: State, e: Event)
    requires Shape(s) && !s.wild && ValidEvent(e) && Accepted(e) && QueryType(e.message) != TYPE_PTR && Fits(e.message)
    requires Lookup(s, e.url.value).Some? && Lookup(s, e.url.value).value.ttl > e.now
    ensures Step(s, e).0 == Allocate(s, e, true)
  {
    hide LocalReply, Lookup;
  }

  lemma {:induction false} PopularRuns(question: Message, reply: Message, x: string, r: Record, k: nat)
    requires AsksFor(question, reply, x, r) && r.ttl == 1
    ensures var es := Popular(question, reply, x, k);
      && ValidEvents(es) && AllHonest(es)
      && Warm(Run(Boot(), es), x, RowFor(x, r, DAY), 1 + k)
      && Genuine(Boot(), {}, es) == {RowFor(x, r, DAY)} && Allocs(Boot(), es) == 1 + k
  {
    hide Step, Warm, RowFor, AsksFor;
    if k == 0 {
      GetsWarm(question, reply, x, r);
    } else {
      PopularRuns(question, reply, x, r, k - 1);
      var es, before := Popular(question, reply, x, k), Popular(question, reply, x, k - 1);
      assert es[..|es| - 1] == before && es[|es| - 1] == Ask(question, x);
      AsksAndProbes(question, reply, x, r);
      StaysWarm(Run(Boot(), before), question, x, RowFor(x, r, DAY), k);
      assert Run(Boot(), es) == Step(Run(Boot(), before), Ask(question, x)).0;
      assert NewRows(Run(Boot(), before), Ask(question, x)) == {};
      WarmIsBounded(Run(Boot(), es), x, RowFor(x, r, DAY), 1 + k);
      BoundedPrefix(Boot(), es);
    }
  }

  lemma {:induction false} WarmIsBounded(s: State, x: string, row: DnsRow, n: nat)
    requires Warm(s, x, row, n)
    ensures Shape(s) && !s.wild && s.next <= 2 * MAX_AMOUNT
  {
  }

  /** A request for another name of the bucket goes upstream, takes slot 0, and makes the next one
      for that name find the entry of `x`. */
  lemma {:induction false} OtherNameIsMisled(s: State, question: Message, x: string, y: string, row: DnsRow)
    requires Warm(s, x, row, MAX_AMOUNT) && Probes(question, y) && x != y && BucketOf(y) == BucketOf(x)
    requires row.domain == x
    ensures !Safe(s, false, Ask(question, y)) && Step(s, Ask(question, y)).1.Forward?
    ensures var s' := Step(s, Ask(question, y)).0;
      && Shape(s') && !s'.wild && s'.next == s.next
      && Step(s', Ask(question, y)).1 == Reply(NOBODY, LocalReply(question, row))
  {
    WarmIsFound(s, x, row, MAX_AMOUNT, y);
    StepKeepsShape(s, Ask(question, y));
    var b := BucketOf(x);
    assert Live(s.table[b])[0] == Entry(Url(0), 0);
    assert Clashes(s, false, b, Live(s.table[b])[0], 0, y);
    var s' := Step(s, Ask(question, y)).0;
    assert Where(s', y) == Some(0);
  }

  /** Names that questions can carry and that share a bucket: let `x` be asked for, answered, and
      asked for 1023 times more, and then `y` be asked for twice.  Up to then every slot was free and
      everything served was right; the second time `y` gets the address of `x`, although no answer
      ever named `y`. */
  lemma {:induction false} MisledAfterOneRound(x: string, y: string) returns (es: seq<Event>, e: Event, row: DnsRow)
    requires x != y && BucketOf(x) == BucketOf(y) && Plain(x) && Plain(y)
    ensures ValidEvents(es) && Bounded(Boot(), es) && Allocs(Boot(), es) == MAX_AMOUNT && SafeRun(Boot(), true, es)
    ensures ValidEvent(e) && Accepted(e) && e.url == Some(y) && AllHonest(es + [e])
    ensures !Safe(Run(Boot(), es), false, e) && Step(Run(Boot(), es), e).1.Forward?
    ensures ValidEvents(es + [e]) && Bounded(Boot(), es + [e])
    ensures Genuine(Boot(), {}, es + [e]) == {row} && row.domain == x
    ensures AnsweredFrom(Step(Run(Boot(), es + [e]), e).1, e, row.data)
  {
    hide AnsweredFrom, Step, Popular, Answers, Safe, Warm, Carried, IsName;
    var question, reply, r := QuestionsExist(x, 1);
    var other, _, _ := QuestionsExist(y, 1);
    e, row := Ask(other, y), RowFor(x, r, DAY);
    es := Popular(question, reply, x, MAX_AMOUNT - 1);
    PopularRuns(question, reply, x, r, MAX_AMOUNT - 1);
    WarmIsBounded(Run(Boot(), es), x, row, MAX_AMOUNT);
    BootIsFresh();
    FirstRoundIsSafe(Boot(), true, es);
    OtherNameIsMisled(Run(Boot(), es), other, x, y, row);
    assert (es + [e])[..|es + [e]| - 1] == es;
    assert NewRows(Run(Boot(), es), e) == {};
    ReplyIsAnswer(e, row);
  }
}
