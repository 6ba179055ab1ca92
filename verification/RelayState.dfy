/** The relay as a state machine: what each datagram does to the tables and what is sent. */
module RelayState {
  import opened HashChains
  import opened HashTables
  import opened DnsAddress
  import opened DnsNames
  import opened DnsRecords
  import opened Octets
  import opened Options

  /** The expiry given to names read from the file. */
  const ETERNAL := 0x3F3F3F3F

  /** The clock counts seconds from the day of the month, which runs from 1 to 31. */
  const DAY := 24 * 60 * 60

  datatype Client = Client(ip: int, port: int)

  datatype IdRow = IdRow(prevID: int, client: Client, finished: bool, offset: int, joinTime: int, url: string)

  datatype DnsRow = DnsRow(rtype: int, ttl: int, data: string, domain: string)

  const EMPTY_ID := IdRow(0, Client(0, 0), false, 0, 0, "")
  const EMPTY_ROW := DnsRow(0, 0, "", "")

  /** A datagram: the identifier, the flags, two of the counts, and the rest, from the two other
      counts on. */
  datatype Message = Message(id: int, flags: int, questions: int, answers: int, tail: Bytes) {
    function Length(): int { 8 + |tail| }
  }

  /** `wild` is set where the C program would use memory that is not there, or not its own; what
      it does from then on is not defined. */
  datatype State = State(
    ids: seq<IdRow>, idCount: nat, rows: seq<DnsRow>, rowCount: nat,
    table: seq<Chain>, next: nat, wild: bool)

  /** The tables before anything is loaded. */
  function Boot(): State {
    State(seq(MAX_AMOUNT, _ => EMPTY_ID), 0, seq(MAX_AMOUNT, _ => EMPTY_ROW), 0, EmptyTable(), MAX_AMOUNT, false)
  }

  ghost predicate Shape(s: State) {
    && |s.ids| == MAX_AMOUNT && |s.rows| == MAX_AMOUNT && |s.table| == MAX_AMOUNT
    && s.idCount < MAX_AMOUNT && s.rowCount <= MAX_AMOUNT
    && (forall b :: 0 <= b < MAX_AMOUNT ==> GoodChain(s.table[b]))
  }

  ghost predicate GoodChain(chain: Chain) {
    chain != [] && forall i :: 0 <= i < |chain| ==> InRange(chain[i].content)
  }

  predicate InRange(c: Content) {
    c.Entry? ==>
      && c.row < MAX_AMOUNT
      && match c.key case Domain(r) => r < MAX_AMOUNT case Url(s) => s < MAX_AMOUNT
  }

  /** What a key pointer shows at present. */
  function TextOf(ids: seq<IdRow>, rows: seq<DnsRow>, key: KeyRef): string {
    match key
    case Domain(r) => if r < |rows| then rows[r].domain else ""
    case Url(slot) => if slot < |ids| then ids[slot].url else ""
  }

  function TextsOf(ids: seq<IdRow>, rows: seq<DnsRow>): Texts {
    key => TextOf(ids, rows, key)
  }

  function Where(s: State, url: string): (r: Option<nat>)
    requires |s.table| == MAX_AMOUNT
    ensures r.Some? ==> r.value < |s.table[BucketOf(url)]| && s.table[BucketOf(url)][r.value].content.Entry?
  {
    Find(s.table[BucketOf(url)], TextsOf(s.ids, s.rows), url)
  }

  /** The cached row for a name. */
  function Lookup(s: State, url: string): Option<DnsRow>
    requires Shape(s)
  {
    var p := Where(s, url);
    if p.None? then None else Some(s.rows[s.table[BucketOf(url)][p.value].content.row])
  }

  // ---------------------------------------------------------------- loading

  /** A line "address domain" with its terminator; None if it has no blank, or nothing after it. */
  function ParseLine(line: string): Option<(string, string)> {
    if line == [] then None
    else if line[0] == ' ' then
      if |line| == 1 then None else Some(("", line[1..|line| - 1]))
    else
      var rest := ParseLine(line[1..]);
      if rest.None? then None else Some(([line[0]] + rest.value.0, rest.value.1))
  }

  function LoadLine(s: State, line: string): State
    requires Shape(s)
  {
    var parsed := ParseLine(line);
    if parsed.None? || s.rowCount == MAX_AMOUNT then s.(wild := true) else
      var (data, domain) := parsed.value;
      InsertRow(s, DnsRow(TYPE_A, ETERNAL, data, domain), Domain(s.rowCount)).(rowCount := s.rowCount + 1)
  }

  /** Writing a row and making it known to the hash table. */
  function InsertRow(s: State, row: DnsRow, key: KeyRef): State
    requires Shape(s) && s.rowCount < MAX_AMOUNT
  {
    var b := BucketOf(row.domain);
    s.(rows := s.rows[s.rowCount := row],
       table := s.table[b := Insert(s.table[b], s.next, key, s.rowCount)],
       next := s.next + 1)
  }

  /** The address is what stands before the first blank, the name what follows it up to the
      terminator, whatever that is; without a blank, or with nothing behind it, there is no line. */
  lemma {:induction false} LineIsRead(data: string, domain: string, terminator: char)
    requires ' ' !in data
    ensures ParseLine(data + " " + domain + [terminator]) == Some((data, domain))
    ensures ParseLine(data) == ParseLine(data + " ") == None
  {
    var line := data + " " + domain + [terminator];
    if data == [] {
      assert line[1..|line| - 1] == domain;
    } else {
      assert line[1..] == data[1..] + " " + domain + [terminator] && (data + " ")[1..] == data[1..] + " ";
      LineIsRead(data[1..], domain, terminator);
      assert [data[0]] + data[1..] == data;
    }
  }

  /** The row a line becomes: an address record that stays. */
  lemma {:induction false} LineBecomesRow(s: State, data: string, domain: string, terminator: char)
    requires Shape(s) && s.rowCount < MAX_AMOUNT && ' ' !in data
    ensures var s' := LoadLine(s, data + " " + domain + [terminator]);
      && s'.rows == s.rows[s.rowCount := DnsRow(1, 1061109567, data, domain)] && s'.rowCount == s.rowCount + 1
      && s'.ids == s.ids && s'.wild == s.wild
  {
    LineIsRead(data, domain, terminator);
  }

  function Load(s: State, lines: seq<string>): State
    requires Shape(s)
    decreases |lines|
  {
    if lines == [] || s.wild then s else
      LoadKeepsShape(s, lines[0]);
      Load(LoadLine(s, lines[0]), lines[1..])
  }

  lemma {:induction false} LoadKeepsShape(s: State, line: string)
    requires Shape(s)
    ensures Shape(LoadLine(s, line))
  {
  }

  // ---------------------------------------------------------------- events

  /** A request as `onReadRequest` sees it, with the name found in its question, if any; or an
      answer of the upstream server. */
  datatype Event =
    | Request(client: Client, message: Message, url: Option<string>, now: int)
    | Response(message: Message, now: int)

  datatype Output =
    | Nothing
    | PtrReply(client: Client)
    | Reply(client: Client, message: Message)
    | Forward(message: Message)
    | Deliver(client: Client, message: Message)

  /** The query type: the two octets before the class at the end of the datagram. */
  function QueryType(m: Message): int
    requires |m.tail| >= 4
  {
    Get16(m.tail, |m.tail| - 4)
  }

  /** A request that is looked at: it has a name and fits the buffer. */
  predicate Accepted(e: Event) {
    e.Request? && e.message.Length() <= 1024 && |e.message.tail| > 8 && e.url.Some?
  }

  /** The name that the question of a request carries, if it is written out there. */
  function Carried(m: Message): Option<string>
    requires |m.tail| > 8
  {
    ParseName(m.tail[4..|m.tail| - 4])
  }

  /** The request comes with the name its datagram carries.  The theorems for all runs do not need
      this; the runs exhibited have it. */
  predicate Honest(e: Event) {
    e.Request? && |e.message.tail| > 8 ==> e.url.Some? && e.url == Carried(e.message)
  }

  predicate AllHonest(es: seq<Event>) { forall i :: 0 <= i < |es| ==> Honest(es[i]) }

  /** A name that a question can carry and the tables can hold. */
  predicate Plain(name: string) { IsName(name) && |name| < 64 }

  /** A reply made here is 16 octets longer than the request; both are to fit 1024 octets. */
  predicate Fits(m: Message) { m.Length() + 16 <= 1024 }

  /** Position of the `n`-th dot of a name. */
  function Dot(url: string, n: nat): Option<nat>
    decreases |url|
  {
    if url == [] then None
    else if url[0] == '.' && n <= 1 then Some(0)
    else Shifted(Dot(url[1..], if url[0] == '.' then n - 1 else n), 1)
  }

  /** The four numbers a PTR request names have to fit sixteen characters, with a final zero. */
  predicate Reversible(url: string) {
    var end := Dot(url, 4);
    end.Some? && end.value < 16
  }

  function Allocate(s: State, e: Event, finished: bool): State
    requires Shape(s) && Accepted(e)
  {
    s.(ids := s.ids[s.idCount := IdRow(e.message.id, e.client, finished, e.message.Length(), e.now, e.url.value)],
       idCount := (s.idCount + 1) % MAX_AMOUNT)
  }

  /** A request answered from the cache: the question, one A record, and an answer count that is
      zero for a banned name. */
  function LocalReply(m: Message, row: DnsRow): Message {
    Message(m.id, 0x8180, m.questions, if row.data == "0.0.0.0" then 0 else 1,
            m.tail + ReplyRecord(Read(row.data, 4)))
  }

  /** A request for a name that is not cached, or whose row `p` has expired: it goes upstream. */
  function OnMiss(s: State, e: Event, p: Option<nat>): (State, Output)
    requires Shape(s) && Accepted(e) && p == Where(s, e.url.value)
  {
    var forward := Forward(e.message.(id := s.idCount));
    if p.None? then (Allocate(s, e, false), forward) else
      var b := BucketOf(e.url.value);
      var chain := Remove(s.table[b], p.value);
      if chain.None? then (s.(wild := true), Nothing)
      else (Allocate(s, e, false).(table := s.table[b := chain.value]), forward)
  }

  function OnRequest(s: State, e: Event): (State, Output)
    requires Shape(s) && e.Request?
  {
    if !Accepted(e) then (s, Nothing)
    else if QueryType(e.message) == TYPE_PTR then
      if Fits(e.message) && Reversible(e.url.value) then (Allocate(s, e, true), PtrReply(e.client))
      else (s.(wild := true), Nothing)
    else
      var row := Lookup(s, e.url.value);
      if row.None? || row.value.ttl <= e.now then OnMiss(s, e, Where(s, e.url.value))
      else if !Fits(e.message) then (s.(wild := true), Nothing)
      else (Allocate(s, e, true), Reply(e.client, LocalReply(e.message, row.value)))
  }

  /** Offset of the answers in the tail of a message: past the zero octet that ends the question's
      name, and the type and class after it. */
  function AnswerStart(tail: Bytes, from: nat): Option<nat>
    decreases |tail| - from
  {
    if from >= |tail| then None else if tail[from] == 0 then Some(from + 5) else AnswerStart(tail, from + 1)
  }

  lemma {:induction false} AnswersBehind(front: Bytes, b: Bytes, rest: Bytes, from: nat)
    requires from <= |b| && forall i :: from <= i < |b| ==> b[i] != 0
    requires front == b + [0] + rest
    ensures AnswerStart(front, from) == Some(|b| + 5)
    decreases |b| - from
  {
    if from < |b| { AnswersBehind(front, b, rest, from + 1); }
  }

  function Answers(m: Message): Option<seq<Record>>
    requires m.answers >= 0
  {
    var start := AnswerStart(m.tail, 4);
    if start.None? || start.value > |m.tail| then None else Walk(m.tail[start.value..], m.answers)
  }

  /** The answers stand behind the name of the question, its zero octet, its type and its class. */
  lemma {:induction false} AnswersAreFound(m: Message, counts: Bytes, name: Bytes, types: Bytes, rs: seq<Record>,
                                           after: Bytes)
    requires |counts| == 4 && |types| == 4 && 0 !in name && AllEncodable(rs) && m.answers == |rs|
    requires m.tail == counts + name + [0] + types + EncodeAll(rs) + after
    ensures Answers(m) == Some(rs)
  {
    var front := counts + name;
    assert m.tail == front + [0] + (types + EncodeAll(rs) + after);
    AnswersBehind(m.tail, front, types + EncodeAll(rs) + after, 4);
    assert m.tail[|front| + 5..] == EncodeAll(rs) + after;
    WalkVisitsTheRecords(rs, after);
  }

  /** The name of the question stands behind the counts, and its type behind the name. */
  lemma {:induction false} NameIsCarried(m: Message, counts: Bytes, name: string, types: Bytes)
    requires |counts| == 4 && |types| == 4 && IsName(name)
    requires m.tail == counts + EncodeName(name) + [0] + types
    ensures Carried(m) == Some(name) && QueryType(m) == Number(types[0], types[1])
  {
    assert m.tail[4..|m.tail| - 4] == EncodeName(name) + [0] + [];
    assert m.tail[|m.tail| - 4..] == types;
    NameRoundTrip(name, []);
  }

  /** What one answer record does: an A record is cached unless the name is there already. */
  function CacheOne(s: State, slot: nat, r: Record, now: int): State
    requires Shape(s) && slot < MAX_AMOUNT
  {
    if s.wild || r.rtype != TYPE_A || Where(s, s.ids[slot].url).Some? then s
    else if s.rowCount == MAX_AMOUNT then s.(wild := true)
    else
      InsertRow(s, RowFor(s.ids[slot].url, r, now), Url(slot)).(rowCount := (s.rowCount + 1) % MAX_AMOUNT)
  }

  function RowFor(url: string, r: Record, now: int): DnsRow {
    DnsRow(TYPE_A, (now + r.ttl) % 0x1_0000_0000, Print(r.data), url)
  }

  lemma {:induction false} RowHasName(url: string, r: Record, now: int)
    ensures RowFor(url, r, now).domain == url
  {
  }

  lemma {:induction false} CacheOneKeepsShape(s: State, slot: nat, r: Record, now: int)
    requires Shape(s) && slot < MAX_AMOUNT
    ensures Shape(CacheOne(s, slot, r, now))
  {
  }

  function CacheAll(s: State, slot: nat, rs: seq<Record>, now: int): (s': State)
    requires Shape(s) && slot < MAX_AMOUNT
    ensures Shape(s')
    decreases |rs|
  {
    if rs == [] then s else
      CacheOneKeepsShape(s, slot, rs[0], now);
      CacheAll(CacheOne(s, slot, rs[0], now), slot, rs[1..], now)
  }

  predicate ValidMessage(m: Message) {
    0 <= m.id < 0x1_0000 && 0 <= m.answers < 0x1_0000
  }

  /** A response is in time within two seconds of the request. */
  predicate InTime(s: State, e: Event)
    requires e.Response? && 0 <= e.message.id < |s.ids|
  {
    e.now - s.ids[e.message.id].joinTime <= 2
  }

  function MarkFinished(s: State, slot: nat): State
    requires slot < |s.ids|
  {
    s.(ids := s.ids[slot := s.ids[slot].(finished := true)])
  }

  function OnResponse(s: State, e: Event): (State, Output)
    requires Shape(s) && e.Response? && ValidMessage(e.message)
  {
    if e.message.Length() > 1024 then (s, Nothing)
    else if e.message.id >= MAX_AMOUNT then (s.(wild := true), Nothing)
    else if !InTime(s, e) then (s, Nothing)
    else
      var slot := e.message.id;
      var records := Answers(e.message);
      if records.None? then (s.(wild := true), Nothing)
      else
        var s' := CacheAll(MarkFinished(s, slot), slot, records.value, e.now);
        if s'.wild then (s', Nothing)
        else (s', Deliver(s'.ids[slot].client, e.message.(id := s'.ids[slot].prevID)))
  }

  predicate ValidEvent(e: Event) { ValidMessage(e.message) && DAY <= e.now < 32 * DAY }

  function Step(s: State, e: Event): (State, Output)
    requires Shape(s) && ValidEvent(e)
  {
    if s.wild then (s, Nothing) else if e.Request? then OnRequest(s, e) else OnResponse(s, e)
  }

  lemma {:induction false} RemoveKeepsChain(chain: Chain, p: nat)
    requires GoodChain(chain) && p < |chain| && Remove(chain, p).Some?
    ensures GoodChain(Remove(chain, p).value)
  {
  }

  lemma {:induction false} MissKeepsShape(s: State, e: Event)
    requires Shape(s) && Accepted(e)
    ensures Shape(OnMiss(s, e, Where(s, e.url.value)).0)
  {
    hide Remove, Find, BucketOf, GoodChain;
    var p, b := Where(s, e.url.value), BucketOf(e.url.value);
    if p.Some? && Remove(s.table[b], p.value).Some? {
      RemoveKeepsChain(s.table[b], p.value);
    }
  }

  lemma {:induction false} StepKeepsShape(s: State, e: Event)
    requires Shape(s) && ValidEvent(e)
    ensures Shape(Step(s, e).0)
  {
    hide GoodChain, Where, OnMiss, Lookup, CacheAll, QueryType, Reversible, Answers, LocalReply;
    if Accepted(e) { MissKeepsShape(s, e); }
  }
}
