/** What the relay sends, and when it sends nothing, in terms of the octets of the datagrams. */
module RelayOutputs {
  import opened HashTables
  import opened DnsAddress
  import opened DnsRecords
  import opened Octets
  import opened RelayState
  import opened IdRing
  import opened RelayIsolation
  import opened Options

  // ---------------------------------------------------------------- replies

  /** The reply repeats the request, without an error, and behind it stands one A record (name 0xc00c,
      type 1, class 1, 123 seconds) with the octets `o`; a banned name has no answer to be counted. */
  ghost predicate AnswersWith(out: Output, e: Event, o: Bytes, banned: bool) {
    && out.Reply? && e.Request? && out.client == e.client
    && out.message.id == e.message.id && out.message.flags == 0x8180 && out.message.questions == e.message.questions
    && out.message.answers == (if banned then 0 else 1)
    && out.message.tail == e.message.tail + [0xc0, 0x0c, 0, 1, 0, 1, 0, 0, 0, 123, 0, 4] + o
    && Walk(out.message.tail[|e.message.tail|..], 1) == Some([Record(0xc00c, 1, 1, 123, o)])
  }

  /** The reply gives the address that the text shows; the text 0.0.0.0 bans. */
  ghost predicate AnsweredFrom(out: Output, e: Event, text: string) {
    && AnswersWith(out, e, Read(text, 4), text == "0.0.0.0")
    && forall o: Bytes :: |o| == 4 && Print(o) == text ==> AnswersWith(out, e, o, o == [0, 0, 0, 0])
  }

  lemma {:induction false} RecordIsWalked(o: Bytes)
    requires |o| == 4
    ensures ReplyRecord(o) == [0xc0, 0x0c, 0, 1, 0, 1, 0, 0, 0, 123, 0, 4] + o
    ensures Walk(ReplyRecord(o), 1) == Some([Record(0xc00c, 1, 1, 123, o)])
  {
    var r := Record(0xc00c, TYPE_A, 1, 0x7b, o);
    ReplyRecordIsAnA(o);
    WalkVisitsTheRecords([r], []);
    assert [r][1..] == [];
    assert EncodeAll([r]) + [] == ReplyRecord(o);
  }

  lemma {:induction false} ReplyIsAnswer(e: Event, row: DnsRow)
    requires e.Request?
    ensures AnsweredFrom(Reply(e.client, LocalReply(e.message, row)), e, row.data)
  {
    hide ReplyRecord, Walk, Read, Print;
    var tail := LocalReply(e.message, row).tail;
    assert tail[|e.message.tail|..] == ReplyRecord(Read(row.data, 4));
    RecordIsWalked(Read(row.data, 4));
    forall o: Bytes | |o| == 4 && Print(o) == row.data
      ensures AnswersWith(Reply(e.client, LocalReply(e.message, row)), e, o, o == [0, 0, 0, 0])
    {
      AddressRoundTrip(o);
      BannedIffZero(o);
    }
  }

  // ---------------------------------------------------------------- requests

  /** Nothing is done about a request exactly when it is longer than 1024 octets, holds no more than a
      header and a question without a name, or no name was found in it. */
  lemma {:induction false} IgnoredIff(s: State, e: Event)
    requires Shape(s) && !s.wild && ValidEvent(e) && e.Request?
    ensures Step(s, e) == (s, Nothing) <==> |e.message.tail| > 1016 || |e.message.tail| <= 8 || e.url.None?
  {
    hide LocalReply, Lookup, Where, Dot;
  }

  /** The query type 12 is answered at once, with room for 16 more octets and four dots in the first
      sixteen characters of the name; without them nothing is defined. */
  lemma {:induction false} PtrIsAnswered(s: State, e: Event)
    requires Shape(s) && !s.wild && ValidEvent(e) && e.Request?
    requires 8 < |e.message.tail| <= 1016 && e.url.Some?
    ensures var n := |e.message.tail|;
      var ptr := e.message.tail[n - 4] == 0 && e.message.tail[n - 3] == 12;
      var fits := n <= 1000 && Dot(e.url.value, 4).Some? && Dot(e.url.value, 4).value < 16;
      && (Step(s, e).1 == PtrReply(e.client) <==> ptr && fits)
      && (ptr && !fits ==> Step(s, e).0.wild)
  {
    hide LocalReply, Lookup, Where, Dot;
  }

  lemma {:induction false} DotAfter(first: string, rest: string, n: nat)
    requires '.' !in first
    ensures Dot(first, n).None?
    ensures Dot(first + "." + rest, n) == if n <= 1 then Some(|first|) else Shifted(Dot(rest, n - 1), |first| + 1)
  {
    if first == "" {
      assert (first + "." + rest)[1..] == rest;
    } else {
      assert (first + "." + rest)[1..] == first[1..] + "." + rest;
      DotAfter(first[1..], rest, n);
    }
  }

  /** Four parts without dots, and more behind the fourth dot; three parts have no fourth dot. */
  lemma {:induction false} FourParts(a: string, b: string, c: string, d: string, rest: string)
    requires '.' !in a && '.' !in b && '.' !in c && '.' !in d
    ensures Dot(a + "." + (b + "." + (c + "." + (d + "." + rest))), 4) == Some(|a| + |b| + |c| + |d| + 3)
    ensures Dot(a + "." + (b + "." + (c + "." + d)), 4).None?
  {
    hide Dot;
    DotAfter(d, rest, 1);
    DotAfter(c, d + "." + rest, 2);
    DotAfter(b, c + "." + (d + "." + rest), 3);
    DotAfter(a, b + "." + (c + "." + (d + "." + rest)), 4);
    DotAfter(c, d, 2);
    DotAfter(b, c + "." + d, 3);
    DotAfter(a, b + "." + (c + "." + d), 4);
  }

  /** A request that goes upstream is changed in its identifier only, which is the slot that keeps
      the client and the old one. */
  lemma {:induction false} ForwardedUnderItsSlot(s: State, e: Event)
    requires Shape(s) && !s.wild && ValidEvent(e) && Step(s, e).1.Forward?
    ensures Accepted(e) && Step(s, e).1.message == Message(s.idCount, e.message.flags, e.message.questions,
                                                           e.message.answers, e.message.tail)
    ensures Step(s, e).0.ids[s.idCount] ==
      IdRow(e.message.id, e.client, false, 8 + |e.message.tail|, e.now, e.url.value)
    ensures Allocates(s, e)
  {
    hide LocalReply, Lookup, Where, Dot;
  }

  // ---------------------------------------------------------------- responses

  /** A response longer than 1024 octets, or more than two seconds after the request that took its
      slot, does nothing; any other is delivered, if what it makes the relay do is defined. */
  lemma {:induction false} DeliveredIff(s: State, e: Event)
    requires Shape(s) && !s.wild && ValidEvent(e) && e.Response? && e.message.id < 1024
    ensures var dropped := |e.message.tail| > 1016 || e.now - s.ids[e.message.id].joinTime > 2;
      && (dropped ==> Step(s, e) == (s, Nothing))
      && (!dropped ==> Step(s, e).0.wild || Step(s, e).1.Deliver?)
  {
    hide Answers, CacheAll;
  }

  /** Round trip through the upstream server: an answer under the identifier of the forwarded request
      goes to the client that asked, as the answer to what it asked under its own identifier, as long
      as fewer than 1024 requests were taken up since. */
  lemma {:induction false} AskedIsAnswered(s: State, es: seq<Event>, k: nat, e: Event)
    requires Shape(s) && ValidEvents(es) && k < |es| && !Run(s, es[..k]).wild
    requires Step(Run(s, es[..k]), es[k]).1.Forward?
    requires ValidEvent(e) && e.Response? && e.message.id == Step(Run(s, es[..k]), es[k]).1.message.id
    requires AllocsAfter(s, es, k) < MAX_AMOUNT && Step(Run(s, es), e).1.Deliver?
    ensures Step(Run(s, es), e).1 == Deliver(es[k].client, e.message.(id := es[k].message.id))
  {
    hide Step;
    ForwardedUnderItsSlot(Run(s, es[..k]), es[k]);
    Isolation(s, es, k, e);
  }
}
