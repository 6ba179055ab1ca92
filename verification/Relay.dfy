/** The relay's callbacks over its fixed tables. */
module Relays {
  import opened HashChains
  import opened HashTables
  import opened DnsAddress
  import opened DnsRecords
  import opened Octets
  import opened RelayState
  import opened Options

  lemma {:induction false} WildStaysWild(s: State, slot: nat, rs: seq<Record>, now: int)
    requires Shape(s) && slot < MAX_AMOUNT && s.wild
    ensures CacheAll(s, slot, rs, now) == s
    decreases |rs|
  {
    if rs != [] {
      WildStaysWild(s, slot, rs[1..], now);
    }
  }

  /** Caching the answers of a walk; running off the datagram is wild. */
  function CacheWalked(s: State, slot: nat, b: Bytes, count: nat, now: int): State
    requires Shape(s) && slot < MAX_AMOUNT
  {
    var records := Walk(b, count);
    if records.None? then s.(wild := true) else CacheAll(s, slot, records.value, now)
  }

  /** Equal, unless both are wild. */
  ghost predicate Same(a: State, b: State) {
    a.wild == b.wild && (!a.wild ==> a == b)
  }

  /** One round of the walk: the first record is dealt with, the rest remain. */
  lemma {:induction false} WalkRound(s: State, slot: nat, b: Bytes, count: nat, now: int)
    requires Shape(s) && slot < MAX_AMOUNT && count > 0 && !s.wild
    ensures FirstRecord(b).None? ==> CacheWalked(s, slot, b, count, now).wild
    ensures FirstRecord(b).Some? ==>
      var r := FirstRecord(b).value;
      var s' := CacheOne(s, slot, r, now);
      && Shape(s')
      && (s'.wild ==> CacheWalked(s, slot, b, count, now).wild)
      && Same(CacheWalked(s', slot, b[12 + |r.data|..], count - 1, now), CacheWalked(s, slot, b, count, now))
  {
    if FirstRecord(b).Some? {
      var r := FirstRecord(b).value;
      var rest := Walk(b[12 + |r.data|..], count - 1);
      CacheOneKeepsShape(s, slot, r, now);
      if rest.Some? {
        assert ([r] + rest.value)[1..] == rest.value;
        if CacheOne(s, slot, r, now).wild {
          WildStaysWild(CacheOne(s, slot, r, now), slot, rest.value, now);
        }
      }
    }
  }

  /** The loop that looks for the dots in the name of a PTR request. */
  method FourthDot(url: string) returns (end: Option<nat>)
    ensures end == Dot(url, 4)
  {
    end := None;
    var i, dotCnt := 0, 0;
    while i < |url|
      invariant 0 <= i <= |url| && 0 <= dotCnt < 4 && end.None?
      invariant Shifted(Dot(url[i..], 4 - dotCnt), i) == Dot(url, 4)
    {
      assert url[i..][1..] == url[i + 1..];
      if url[i] == '.' {
        dotCnt := dotCnt + 1;
      }
      if dotCnt == 4 {
        return Some(i);
      }
      i := i + 1;
    }
  }

  class Relay {
    const idTable: array<IdRow>
    const dnsTable: array<DnsRow>
    const dnsHashTable: HashTable
    var idRowCount: nat
    var dnsRowCount: nat
    /** Not a field of the program: set where it would leave its own memory. */
    var wild: bool

    constructor ()
      ensures Valid() && fresh(idTable) && fresh(dnsTable) && fresh(dnsHashTable)
      ensures Tables() == Boot()
    {
      idTable := new IdRow[MAX_AMOUNT](_ => EMPTY_ID);
      dnsTable := new DnsRow[MAX_AMOUNT](_ => EMPTY_ROW);
      dnsHashTable := new HashTable();
      idRowCount, dnsRowCount, wild := 0, 0, false;
      new;
      assert idTable[..] == seq(MAX_AMOUNT, _ => EMPTY_ID);
      assert dnsTable[..] == seq(MAX_AMOUNT, _ => EMPTY_ROW);
    }

    function Tables(): State
      reads this, idTable, dnsTable, dnsHashTable
    {
      State(idTable[..], idRowCount, dnsTable[..], dnsRowCount, dnsHashTable.data, dnsHashTable.next, wild)
    }

    ghost predicate Valid()
      reads this, idTable, dnsTable, dnsHashTable
    {
      Shape(Tables())
    }

    method GetNewID(oldID: int, addr: Client, isDone: bool, offset: int, url: string, now: int) returns (newID: nat)
      requires Valid()
      modifies idTable, this`idRowCount
      ensures newID == old(idRowCount) && idRowCount == (old(idRowCount) + 1) % MAX_AMOUNT
      ensures idTable[..] == old(idTable[..])[newID := IdRow(oldID, addr, isDone, offset, now, url)]
    {
      idTable[idRowCount] := IdRow(oldID, addr, isDone, offset, now, url);
      idRowCount := (idRowCount + 1) % MAX_AMOUNT;
      newID := (idRowCount + MAX_AMOUNT - 1) % MAX_AMOUNT;
    }

    method LoadDnsTableData(lines: seq<string>)
      requires Valid() && !wild
      modifies this, dnsTable, dnsHashTable
      ensures Valid() && Tables() == Load(old(Tables()), lines)
    {
      var i := 0;
      while i < |lines| && !wild
        invariant 0 <= i <= |lines| && Valid()
        invariant Load(Tables(), lines[i..]) == Load(old(Tables()), lines)
      {
        ghost var before := Tables();
        assert lines[i..][1..] == lines[i + 1..];
        LoadKeepsShape(before, lines[i]);
        var parsed := ParseLine(lines[i]);
        if parsed.None? || dnsRowCount == MAX_AMOUNT {
          wild := true;
        } else {
          var (data, domain) := parsed.value;
          dnsTable[dnsRowCount] := DnsRow(TYPE_A, ETERNAL, data, domain);
          dnsHashTable.InsertHashItem(domain, Domain(dnsRowCount), dnsRowCount);
          dnsRowCount := dnsRowCount + 1;
        }
        assert Tables() == LoadLine(before, lines[i]);
        i := i + 1;
      }
    }

    method OnReadRequest(e: Event) returns (out: Output)
      requires Valid() && !wild && e.Request? && ValidEvent(e)
      modifies this, idTable, dnsHashTable
      ensures Valid() && (Tables(), out) == Step(old(Tables()), e)
    {
      hide Remove, Read, ReplyRecord, BucketOf, Find, TextsOf, Dot;
      ghost var before := Tables();
      StepKeepsShape(before, e);
      if e.message.Length() > 1024 || |e.message.tail| <= 8 || e.url.None? {
        return Nothing;
      }
      var url, m := e.url.value, e.message;
      if QueryType(m) == TYPE_PTR {
        var end := FourthDot(url);
        if !Fits(m) || end.None? || end.value >= 16 {
          wild := true;
          return Nothing;
        }
        var _ := GetNewID(m.id, e.client, true, m.Length(), url, e.now);
        return PtrReply(e.client);
      }
      var p := dnsHashTable.FindNodeByKey(url, TextsOf(idTable[..], dnsTable[..]));
      if p.Some? {
        var result := dnsTable[dnsHashTable.data[BucketOf(url)][p.value].content.row];
        if result.ttl > e.now {
          if !Fits(m) {
            wild := true;
            return Nothing;
          }
          var _ := GetNewID(m.id, e.client, true, m.Length(), url, e.now);
          var address := ReadAddress(result.data);
          var answerNum := if result.data == "0.0.0.0" then 0 else 1;
          return Reply(e.client, Message(m.id, 0x8180, m.questions, answerNum, m.tail + ReplyRecord(address)));
        }
        var ok := dnsHashTable.RemoveHashItemByNode(BucketOf(url), p.value);
        if !ok {
          wild := true;
          return Nothing;
        }
      }
      var newID := GetNewID(m.id, e.client, false, m.Length(), url, e.now);
      return Forward(m.(id := newID));
    }

    /** The A branch of the answer loop: the first address for a name is cached. */
    method CacheAnswer(slot: nat, r: Record, now: int)
      requires Valid() && !wild && slot < MAX_AMOUNT && r.rtype == TYPE_A
      modifies this`dnsRowCount, this`wild, dnsTable, dnsHashTable
      ensures Valid() && Tables() == CacheOne(old(Tables()), slot, r, now)
    {
      ghost var before := Tables();
      CacheOneKeepsShape(before, slot, r, now);
      var url := idTable[slot].url;
      var result := PrintAddress(r.data);
      var cached := dnsHashTable.FindNodeByKey(url, TextsOf(idTable[..], dnsTable[..]));
      if cached.None? {
        if dnsRowCount == MAX_AMOUNT {
          wild := true;
          return;
        }
        var ttl := (now + r.ttl) % 0x1_0000_0000;
        dnsTable[dnsRowCount] := DnsRow(TYPE_A, ttl, result, url);
        dnsHashTable.InsertHashItem(url, Url(slot), dnsRowCount);
        dnsRowCount := (dnsRowCount + 1) % MAX_AMOUNT;
      }
    }

    /** The loop over the answer section. */
    method WalkAnswers(slot: nat, section: Bytes, count: nat, now: int)
      requires Valid() && !wild && slot < MAX_AMOUNT
      modifies this`dnsRowCount, this`wild, dnsTable, dnsHashTable
      ensures Valid() && Same(Tables(), CacheWalked(old(Tables()), slot, section, count, now))
    {
      hide InsertRow, GoodChain, RowFor, Find, FirstRecord, BucketOf;
      var i, ptrOffset := 1, 0;
      assert section[0..] == section;
      while i <= count
        invariant 1 <= i <= count + 1 && 0 <= ptrOffset <= |section|
        invariant Valid() && !wild
        invariant Same(CacheWalked(Tables(), slot, section[ptrOffset..], count + 1 - i, now),
                       CacheWalked(old(Tables()), slot, section, count, now))
      {
        var rest := section[ptrOffset..];
        WalkRound(Tables(), slot, rest, count + 1 - i, now);
        var record := FirstRecord(rest);
        if record.None? {
          wild := true;
          return;
        }
        var r := record.value;
        if r.rtype == TYPE_A {
          CacheAnswer(slot, r, now);
          if wild {
            return;
          }
        }
        ptrOffset := ptrOffset + 12 + |r.data|;
        assert section[ptrOffset..] == rest[12 + |r.data|..];
        i := i + 1;
      }
    }

    method OnReadResponse(e: Event) returns (out: Output)
      requires Valid() && !wild && e.Response? && ValidEvent(e)
      modifies this, idTable, dnsTable, dnsHashTable
      ensures Valid() && wild == Step(old(Tables()), e).0.wild
      ensures !wild ==> (Tables(), out) == Step(old(Tables()), e)
    {
      var m, slot := e.message, e.message.id;
      out := Nothing;
      if m.Length() > 1024 {
        return;
      }
      if slot >= MAX_AMOUNT {
        wild := true;
        return;
      }
      if e.now - idTable[slot].joinTime > 2 {
        return;
      }
      ghost var before := Tables();
      idTable[slot] := idTable[slot].(finished := true);
      assert Tables() == MarkFinished(before, slot);
      var answerStart := AnswerStart(m.tail, 4);
      if answerStart.None? || answerStart.value > |m.tail| {
        wild := true;
        return;
      }
      WalkAnswers(slot, m.tail[answerStart.value..], m.answers, e.now);
      if !wild {
        out := Deliver(idTable[slot].client, m.(id := idTable[slot].prevID));
      }
    }
  }
}
