/** Which names of the file are always served: those that come first in their bucket, and no
    others. */
module RelayStability {
  import opened HashChains
  import opened HashTables
  import opened DnsNames
  import opened DnsRecords
  import opened Octets
  import opened Ranges
  import opened RelayState
  import opened RelayIsolation
  import opened RelayOutputs
  import opened RelayCache
  import opened RelayRuns
  import opened RelayRefinement
  import opened RelayStatics
  import opened Options

  // ---------------------------------------------------------------- datagrams

  const NOBODY := Client(0, 0)

  /** `question` asks for the address of `x`, and leaves room for a reply. */
  ghost predicate Probes(question: Message, x: string) {
    && Accepted(Ask(question, x)) && Honest(Ask(question, x)) && ValidMessage(question)
    && QueryType(question) != TYPE_PTR && Fits(question)
  }

  /** `reply` repeats the question and answers it with the one address in `r`. */
  ghost predicate AsksFor(question: Message, reply: Message, x: string, r: Record) {
    && Probes(question, x)
    && question.tail <= reply.tail && reply.Length() <= 1024 && 0 <= reply.answers < 0x1_0000
    && Answers(reply) == Some([r]) && r.rtype == TYPE_A
  }

  function Ask(question: Message, x: string): Event {
    Request(NOBODY, question, Some(x), DAY)
  }

  function Answered(reply: Message, slot: nat): Event {
    Response(reply.(id := slot), DAY)
  }

  lemma {:induction false} SameAnswer(reply: Message, slot: nat)
    requires reply.answers >= 0
    ensures var m := Answered(reply, slot).message; m.Length() == reply.Length() && Answers(m) == Answers(reply)
  {
  }

  /** The question for the address of `x`, from the two last counts on. */
  function Question(x: string): Bytes
    requires IsName(x)
  {
    [0, 0, 0, 0] + EncodeName(x) + [0, 0, 1, 0, 1]
  }

  lemma {:induction false} QuestionIsRead(x: string)
    requires IsName(x)
    ensures var q := Question(x);
      |q| == |x| + 10 && ParseName(q[4..|q| - 4]) == Some(x) && Get16(q, |q| - 4) == 1
  {
    hide IsName, ParseName, EncodeName;
    var q := Question(x);
    NameRoundTrip(x, []);
    assert q[4..|q| - 4] == EncodeName(x) + [0] + [];
    assert q[|q| - 4..] == [0, 1, 0, 1];
  }

  /** Such datagrams exist for every name a question can carry. */
  lemma {:induction false} QuestionsExist(x: string, ttl: int) returns (question: Message, reply: Message, r: Record)
    requires Plain(x) && 0 <= ttl < 0x1_0000_0000
    ensures AsksFor(question, reply, x, r) && r.ttl == ttl
  {
    hide EncodeName, ParseName, IsName, FirstRecord, AnswerStart;
    r := Record(0xc00c, TYPE_A, 1, ttl, [127, 0, 0, 1]);
    question := Message(0, 0x0100, 1, 0, Question(x));
    reply := Message(0, 0x8180, 1, 1, Question(x) + Encode(r));
    QuestionIsRead(x);
    WalkVisitsTheRecords([r], []);
    assert [r][1..] == [];
    assert EncodeAll([r]) + [] == Encode(r) == reply.tail[|x| + 10..];
    var name: Bytes := [0, 0, 0, 0] + EncodeName(x);
    AnswersBehind(reply.tail, name, [0, 1, 0, 1] + Encode(r), 4);
  }

  // ---------------------------------------------------------------- a run that loses a name

  /** `k` rounds of asking, being answered and asking again, beginning with slot `a`. */
  function Rounds(question: Message, reply: Message, x: string, a: nat, k: nat): (es: seq<Event>)
    ensures |es| == 3 * k
    decreases k
  {
    if k == 0 then []
    else [Ask(question, x), Answered(reply, a), Ask(question, x)] + Rounds(question, reply, x, a + 2, k - 1)
  }

  lemma {:induction false} RoundsAreValid(question: Message, reply: Message, x: string, r: Record, a: nat, k: nat)
    requires AsksFor(question, reply, x, r) && a + 2 * k <= MAX_AMOUNT
    ensures ValidEvents(Rounds(question, reply, x, a, k)) && AllHonest(Rounds(question, reply, x, a, k))
    decreases k
  {
    if k > 0 { RoundsAreValid(question, reply, x, r, a + 2, k - 1); }
  }

  lemma {:induction false} RoundsSplit(question: Message, reply: Message, x: string, a: nat, k: nat)
    requires k > 0
    ensures Rounds(question, reply, x, a, k) ==
      Rounds(question, reply, x, a, 1) + Rounds(question, reply, x, a + 2, k - 1)
    ensures k == 1 ==> Rounds(question, reply, x, a, k) == Rounds(question, reply, x, a, 1)
  {
    assert Rounds(question, reply, x, a + 2, 0) == [];
  }

  lemma {:induction false} RunInTwo(s: State, es: seq<Event>, fs: seq<Event>)
    requires Shape(s) && ValidEvents(es) && ValidEvents(fs)
    ensures Run(s, es + fs) == Run(Run(s, es), fs)
    decreases |fs|
  {
    hide Step;
    if fs == [] {
      assert es + fs == es;
    } else {
      assert (es + fs)[..|es + fs| - 1] == es + fs[..|fs| - 1];
      RunInTwo(s, es, fs[..|fs| - 1]);
    }
  }

  lemma {:induction false} RunOfThree(s: State, e1: Event, e2: Event, e3: Event)
    requires Shape(s) && ValidEvent(e1) && ValidEvent(e2) && ValidEvent(e3)
    requires Shape(Step(s, e1).0) && Shape(Step(Step(s, e1).0, e2).0)
    ensures ValidEvents([e1, e2, e3])
    ensures Run(s, [e1, e2, e3]) == Step(Step(Step(s, e1).0, e2).0, e3).0
  {
    hide Step;
    var es := [e1, e2, e3];
    assert es[..2] == [e1, e2] && [e1, e2][..1] == [e1] && [e1][..0] == [];
    assert Run(s, [e1]) == Step(s, e1).0;
    assert Run(s, [e1, e2]) == Step(Step(s, e1).0, e2).0;
  }

  /** One round, seen as a run. */
  lemma {:induction false} RoundRuns(s: State, a: nat, g: set<DnsRow>, question: Message, reply: Message, x: string,
                                     r: Record)
    requires AsksFor(question, reply, x, r) && r.ttl == 0 && Ready(s, a, g, x) && |s.table[BucketOf(x)]| >= 2
    ensures ValidEvents(Rounds(question, reply, x, a, 1))
    ensures var s' := Run(s, Rounds(question, reply, x, a, 1));
      Shortened(s, s', BucketOf(x)) && Sound(s', true, g + {RowFor(x, r, DAY)}) && Fresh(s', a + 2)
  {
    hide Step, GoodBucket, FreshKeys, Shortened;
    RoundsAreValid(question, reply, x, r, a, 1);
    var ask, answer := Ask(question, x), Answered(reply, a);
    assert Rounds(question, reply, x, a, 1) == [ask, answer, ask];
    SameAnswer(reply, a);
    assert RowFor(x, r, DAY).ttl == DAY;
    RoundDropsLast(s, a, g, ask, answer, ask, r);
    RunOfThree(s, ask, answer, ask);
  }

  /** What one round leaves behind. */
  lemma {:induction false} AfterOneRound(s: State, a: nat, g: set<DnsRow>, question: Message, reply: Message,
                                         x: string, r: Record, victim: string, p: nat, k: nat)
    requires AsksFor(question, reply, x, r) && r.ttl == 0 && BucketOf(victim) == BucketOf(x)
    requires Ready(s, a, g, x) && SitsAt(s, victim, p) && p >= 1 && k >= 1
    requires |s.table[BucketOf(x)]| == p + k && a + 2 * k <= MAX_AMOUNT && s.next + k <= 2 * MAX_AMOUNT
    ensures Shape(s) && ValidEvents(Rounds(question, reply, x, a, 1))
    ensures var s' := Run(s, Rounds(question, reply, x, a, 1));
      && Shape(s') && !s'.wild && s'.next == s.next + 1 && |s'.table[BucketOf(x)]| == p + k - 1
      && (k == 1 ==> Lookup(s', victim).None?)
      && (k > 1 ==> Ready(s', a + 2, g + {RowFor(x, r, DAY)}, x) && SitsAt(s', victim, p))
  {
    hide Step, Insert, Remove, GoodChain, GoodBucket, FreshKeys, Find, FindRow, Live, SitsAt, BucketOf, AsksFor, RowFor;
    RoundRuns(s, a, g, question, reply, x, r);
    var s' := Run(s, Rounds(question, reply, x, a, 1));
    AfterRound(s, g, s', g + {RowFor(x, r, DAY)}, x, victim, p);
  }

  /** As many rounds as there are entries from the victim on lose the victim. */
  lemma {:induction false} RoundsLose(s: State, a: nat, g: set<DnsRow>, question: Message, reply: Message,
                                      x: string, r: Record, victim: string, p: nat, k: nat)
    requires AsksFor(question, reply, x, r) && r.ttl == 0 && BucketOf(victim) == BucketOf(x)
    requires Ready(s, a, g, x) && SitsAt(s, victim, p) && p >= 1 && k >= 1
    requires |s.table[BucketOf(x)]| == p + k && a + 2 * k <= MAX_AMOUNT && s.next + k <= 2 * MAX_AMOUNT
    ensures var es := Rounds(question, reply, x, a, k);
      && ValidEvents(es) && AllHonest(es) && Bounded(s, es) && Lookup(Run(s, es), victim).None?
    decreases k
  {
    hide Step, Sound, SitsAt, BucketOf, AsksFor, RowFor, Lookup, Rounds, Run, Live, Where, FreshKeys;
    RoundsSplit(question, reply, x, a, k);
    var es, first := Rounds(question, reply, x, a, k), Rounds(question, reply, x, a, 1);
    RoundsAreValid(question, reply, x, r, a, k);
    AfterOneRound(s, a, g, question, reply, x, r, victim, p, k);
    if k > 1 {
      var rest := Rounds(question, reply, x, a + 2, k - 1);
      RoundsAreValid(question, reply, x, r, a + 2, k - 1);
      RunInTwo(s, first, rest);
      RoundsLose(Run(s, first), a + 2, g + {RowFor(x, r, DAY)}, question, reply, x, r, victim, p, k - 1);
    }
  }

  // ---------------------------------------------------------------- names of the file

  /** No line has the name. */
  ghost predicate Unnamed(lines: seq<string>, name: string) {
    forall line :: line in lines && ParseLine(line).Some? ==> LineRow(line).domain != name
  }

  lemma {:induction false} CachedIffNamed(m: Cache, lines: seq<string>, name: string)
    ensures name in FileCache(m, lines) <==> name in m || !Unnamed(lines, name)
    decreases |lines|
  {
    if lines != [] {
      CachedIffNamed(AddLine(m, lines[0]), lines[1..], name);
      assert lines == [lines[0]] + lines[1..];
    }
  }

  /** More candidates than lines: one of them is no line's name. */
  lemma {:induction false} PickUnnamed(lines: seq<string>, z: string, left: set<int>) returns (i: nat)
    requires z != [] && |left| > |lines| && forall j :: j in left ==> 0 <= j < 4096
    ensures i in left && Unnamed(lines, Neighbour(z, i))
    decreases |lines|
  {
    hide Neighbour;
    if lines == [] {
      i := AnyOf(left);
    } else {
      if j :| j in left && IsNamed(lines[0], z, j) {
        i := PickUnnamed(lines[1..], z, left - {j});
        NamesAbound(z, i, j);
      } else {
        i := PickUnnamed(lines[1..], z, left);
      }
      assert !IsNamed(lines[0], z, i);
      assert lines == [lines[0]] + lines[1..];
    }
  }

  ghost predicate IsNamed(line: string, z: string, j: nat)
    requires z != [] && j < 4096
  {
    ParseLine(line).Some? && LineRow(line).domain == Neighbour(z, j)
  }

  lemma {:induction false} NeighbourIsPlain(z: string, i: nat)
    requires IsName(z) && i < 4096
    ensures Plain(Neighbour(z, i))
  {
    LastLetterOfName(z);
    LabelEnds(Neighbour(z, i), "");
    assert Neighbour(z, i) + "" == Neighbour(z, i);
  }

  /** Beside every name a question can carry there is, in the same bucket, one that is not in the
      file. */
  lemma {:induction false} AnotherName(lines: seq<string>, z: string) returns (x: string)
    requires !Loaded(lines).wild && |lines| < 4096 && IsName(z)
    ensures Plain(x) && BucketOf(x) == BucketOf(z) && Lookup(Loaded(lines), x).None?
  {
    var i := PickUnnamed(lines, z, UpTo(4096));
    NamesAbound(z, i, i);
    NeighbourIsPlain(z, i);
    x := Neighbour(z, i);
    FileIsServed(lines);
    CachedIffNamed(map[], lines, x);
    assert Lookup(Loaded(lines), x) == Get(FileCache(map[], lines), x);
  }

  /** Loading adds one live entry to the bucket of each line, behind those that are there. */
  lemma {:induction false} LoadGrows(s: State, g: set<DnsRow>, lines: seq<string>, b: nat)
    requires Loading(s, g) && AllOpen(s) && b < MAX_AMOUNT && !Load(s, lines).wild
    ensures var s' := Load(s, lines);
      && Shape(s') && s'.next == s.next + |lines|
      && Live(s.table[b]) <= Live(s'.table[b]) && |Live(s'.table[b])| == |Live(s.table[b])| + CountIn(lines, b)
      && (forall r :: 0 <= r < MAX_AMOUNT && MAX_AMOUNT + r < s.next ==> s'.rows[r] == s.rows[r])
    decreases |lines|
  {
    hide GoodBucket, FreshKeys, Insert;
    if lines != [] {
      LoadSplits(s, lines);
      LineKeepsLoading(s, g, lines[0]);
      LineKeepsOpen(s, lines[0]);
      assert Open(s.table[b]);
      InsertIsSeen(s.table[b], s.next, Domain(s.rowCount), s.rowCount);
      LoadGrows(LoadLine(s, lines[0]), g + {LineRow(lines[0])}, lines[1..], b);
    }
  }

  /** A name of the file that is not first in its bucket sits behind the head of a bucket without
      vacant nodes, and no more entries follow it than lines after its own. */
  lemma {:induction false} LaterNameSits(before: seq<string>, line: string, after: seq<string>) returns (p: nat)
    requires !Loaded(before + [line] + after).wild && ParseLine(line).Some?
    requires Unnamed(before, LineRow(line).domain) && !Avoids(before, BucketOf(LineRow(line).domain))
    ensures var s, name := Loaded(before + [line] + after), LineRow(line).domain;
      var chain := s.table[BucketOf(name)];
      && p >= 1 && SitsAt(s, name, p) && |Live(chain)| == |chain|
      && p < |chain| <= p + 1 + CountIn(after, BucketOf(name))
      && s.next == MAX_AMOUNT + |before + [line] + after|
  {
    hide Load, GoodBucket, FreshKeys, Find, FindRow;
    var lines, name := before + [line] + after, LineRow(line).domain;
    var s, b := Loaded(lines), BucketOf(name);
    var early := Loaded(before);
    EarlierPart(before, line, after);
    FileIsServed(lines);
    CachedIffNamed(map[], lines, name);
    assert Lookup(s, name) == Get(FileCache(map[], lines), name);
    FoundFirst(s, FileRows(lines), name);
    p := Where(s, name).value;
    FileIsServed(before);
    CachedIffNamed(map[], before, name);
    assert Lookup(early, name) == Get(FileCache(map[], before), name);
    LookupIsFindRow(early, FileRows(before), name);
    OldRowsStay(early, true, FileRows(before), s, Live(early.table[b]), b, name);
    FindRowNone(s.rows, Live(early.table[b]), name);
    SamePlace(Live(early.table[b]), Live(s.table[b]), p);
    assert Open(s.table[b]);
    HeadIsLive(s.table[b]);
  }

  lemma {:induction false} SamePlace(part: seq<Content>, live: seq<Content>, p: nat)
    requires part <= live
    ensures p < |part| ==> part[p] == live[p]
  {
  }

  lemma {:induction false} HeadIsLive(chain: Chain)
    requires Open(chain) && Live(chain) != []
    ensures |Live(chain)| == |chain|
  {
  }

  /** Where the bucket stands when the line is reached, and what the rest of the file adds. */
  lemma {:induction false} EarlierPart(before: seq<string>, line: string, after: seq<string>)
    requires !Loaded(before + [line] + after).wild && ParseLine(line).Some?
    ensures var s, early, b := Loaded(before + [line] + after), Loaded(before), BucketOf(LineRow(line).domain);
      && !early.wild
      && s.next == MAX_AMOUNT + |before + [line] + after|
      && Live(early.table[b]) <= Live(s.table[b])
      && |Live(early.table[b])| == CountIn(before, b)
      && |Live(s.table[b])| == |Live(early.table[b])| + 1 + CountIn(after, b)
      && (forall r :: 0 <= r < MAX_AMOUNT && MAX_AMOUNT + r < early.next ==> s.rows[r] == early.rows[r])
  {
    hide GoodBucket, FreshKeys, LoadLine, Loading;
    var b := BucketOf(LineRow(line).domain);
    var rest := [line] + after;
    assert before + [line] + after == before + rest;
    LoadConcat(Boot(), before, rest);
    if Loaded(before).wild { WildLoad(Loaded(before), rest); }
    BootIsLoading();
    LoadGrows(Boot(), {}, before, b);
    FileIsServed(before);
    LoadGrows(Loaded(before), FileRows(before), rest, b);
    assert rest[0] == line && rest[1..] == after;
    assert Live(Boot().table[b]) == [];
  }

  lemma {:induction false} BootIsLoading()
    ensures Loading(Boot(), {}) && AllOpen(Boot())
  {
    BootIsSound();
    BootIsFresh();
  }

  // ---------------------------------------------------------------- stability

  /** A moment of a run that does not wrap the ring of rows, and a request for `name` then that
      leaves room for a reply; every request comes with the name it carries. */
  ghost predicate Asked(s: State, es: seq<Event>, e: Event, name: string)
    requires Shape(s)
  {
    && ValidEvents(es) && AllHonest(es) && Bounded(s, es)
    && ValidEvent(e) && Honest(e) && Accepted(e) && QueryType(e.message) != TYPE_PTR && Fits(e.message)
    && e.url.value == name
  }

  ghost predicate Served(s: State, es: seq<Event>, e: Event, row: DnsRow)
    requires Shape(s)
  {
    Asked(s, es, e, row.domain) ==> AnsweredFrom(Step(Run(s, es), e).1, e, row.data)
  }

  /** Stability of static names, exactly.  A name of the file that questions can carry is answered
      with the address of its first line at every moment of every run if and only if no earlier name
      of the file is in its bucket; the file has to leave as many rows free as entries of the bucket
      follow the name. */
  lemma {:induction false} StableIffFirst(before: seq<string>, line: string, after: seq<string>)
    requires !Loaded(before + [line] + after).wild && ParseLine(line).Some?
    requires Unnamed(before, LineRow(line).domain) && Plain(LineRow(line).domain)
    requires |before + [line] + after| + 1 + CountIn(after, BucketOf(LineRow(line).domain)) <= MAX_AMOUNT
    ensures var row := LineRow(line);
      (forall es, e :: Served(Loaded(before + [line] + after), es, e, row)) <==> Avoids(before, BucketOf(row.domain))
  {
    hide Step, Load, Avoids;
    var row := LineRow(line);
    var s := Loaded(before + [line] + after);
    if Avoids(before, BucketOf(row.domain)) {
      forall es, e ensures Served(s, es, e, row) {
        if Asked(s, es, e, row.domain) { FirstNamesAreStable(before, line, after, es, e); }
      }
    } else {
      var es := LosingRun(before, line, after);
      var probe, reply, r := QuestionsExist(row.domain, 0);
      LostIsForwarded(Run(s, es), probe, row.domain);
      assert Asked(s, es, Ask(probe, row.domain), row.domain);
      assert !Served(s, es, Ask(probe, row.domain), row);
    }
  }

  lemma {:induction false} LosingRun(before: seq<string>, line: string, after: seq<string>) returns (es: seq<Event>)
    requires !Loaded(before + [line] + after).wild && ParseLine(line).Some?
    requires Unnamed(before, LineRow(line).domain) && !Avoids(before, BucketOf(LineRow(line).domain))
    requires Plain(LineRow(line).domain)
    requires |before + [line] + after| + 1 + CountIn(after, BucketOf(LineRow(line).domain)) <= MAX_AMOUNT
    ensures var s := Loaded(before + [line] + after);
      ValidEvents(es) && AllHonest(es) && Bounded(s, es) && Lookup(Run(s, es), LineRow(line).domain).None?
  {
    hide Load, Step, SitsAt, FindRow, GoodBucket, FreshKeys, GoodChain, Live, BucketOf;
    var lines, name := before + [line] + after, LineRow(line).domain;
    var s := Loaded(lines);
    var p := LaterNameSits(before, line, after);
    var x := AnotherName(lines, name);
    FileIsServed(lines);
    var question, reply, r := QuestionsExist(x, 0);
    var k := |s.table[BucketOf(name)]| - p;
    es := Rounds(question, reply, x, 0, k);
    RoundsLose(s, 0, FileRows(lines), question, reply, x, r, name, p, k);
  }

  lemma {:induction false} LostIsForwarded(s: State, probe: Message, name: string)
    requires Shape(s) && !s.wild && Probes(probe, name) && Lookup(s, name).None?
    ensures Step(s, Ask(probe, name)).1.Forward?
  {
  }
}
