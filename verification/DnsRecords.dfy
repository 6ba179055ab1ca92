/** Resource records on the wire (section 4.1.3 of RFC 1035), with the two-octet compressed owner
    names of section 4.1.4, and the walk over the answer section. */
module DnsRecords {
  import opened DnsAddress
  import opened Octets
  import opened Options

  const TYPE_A := 1
  const TYPE_PTR := 12

  datatype Record = Record(name: int, rtype: int, class_: int, ttl: int, data: Bytes)

  function U16(v: int): Bytes
    requires 0 <= v < 0x1_0000
  {
    [v / 256, v % 256]
  }

  function U32(v: int): Bytes
    requires 0 <= v < 0x1_0000_0000
  {
    U16(v / 0x1_0000) + U16(v % 0x1_0000)
  }

  function Get16(b: Bytes, at: nat): (v: int)
    requires at + 2 <= |b|
    ensures 0 <= v < 0x1_0000
  {
    var high: int := b[at];
    high * 256 + b[at + 1]
  }

  function Get32(b: Bytes, at: nat): (v: int)
    requires at + 4 <= |b|
    ensures 0 <= v < 0x1_0000_0000
  {
    Get16(b, at) * 0x1_0000 + Get16(b, at + 2)
  }

  predicate Encodable(r: Record) {
    && 0 <= r.name < 0x1_0000 && 0 <= r.rtype < 0x1_0000 && 0 <= r.class_ < 0x1_0000
    && 0 <= r.ttl < 0x1_0000_0000 && |r.data| < 0x1_0000
  }

  function Header(r: Record): (b: Bytes)
    requires Encodable(r)
    ensures |b| == 12
  {
    U16(r.name) + U16(r.rtype) + U16(r.class_) + U32(r.ttl) + U16(|r.data|)
  }

  function Encode(r: Record): (b: Bytes)
    requires Encodable(r)
    ensures |b| == 12 + |r.data|
  {
    Header(r) + r.data
  }

  predicate AllEncodable(rs: seq<Record>) {
    rs == [] || (Encodable(rs[0]) && AllEncodable(rs[1..]))
  }

  function EncodeAll(rs: seq<Record>): Bytes
    requires AllEncodable(rs)
  {
    if rs == [] then [] else Encode(rs[0]) + EncodeAll(rs[1..])
  }

  /** The record the bytes start with, or None if it runs past the end of the datagram. */
  function FirstRecord(b: Bytes): (r: Option<Record>)
    ensures r.Some? ==> 12 + |r.value.data| <= |b| && Encodable(r.value)
  {
    if 12 > |b| then None else
      var len := Get16(b, 10);
      if 12 + len > |b| then None
      else Some(Record(Get16(b, 0), Get16(b, 2), Get16(b, 4), Get32(b, 6), b[12..12 + len]))
  }

  /** The records visited by `count` rounds of the walk over the answer section. */
  function Walk(b: Bytes, count: nat): Option<seq<Record>>
    decreases count
  {
    if count == 0 then Some([]) else
      var r := FirstRecord(b);
      if r.None? then None else
        var rest := Walk(b[12 + |r.value.data|..], count - 1);
        if rest.None? then None else Some([r.value] + rest.value)
  }

  lemma {:induction false} HeaderFields(r: Record, b: Bytes)
    requires Encodable(r) && |b| >= 12 && b[..12] == Header(r)
    ensures Get16(b, 0) == r.name && Get16(b, 2) == r.rtype && Get16(b, 4) == r.class_
    ensures Get32(b, 6) == r.ttl && Get16(b, 10) == |r.data|
  {
    assert forall i :: 0 <= i < 12 ==> b[i] == b[..12][i];
  }

  /** The number two octets stand for in a datagram, the higher one first. */
  function Number(high: int, low: int): int { 256 * high + low }

  /** The octets of a record in their order: two for the name, the type and the class each, four for
      the time to live, two for the length, and the data. */
  lemma {:induction false} RecordOctets(h: Bytes, data: Bytes, after: Bytes)
    requires |h| == 12 && Number(h[10], h[11]) == |data|
    ensures FirstRecord(h + data + after) ==
      Some(Record(Number(h[0], h[1]), Number(h[2], h[3]), Number(h[4], h[5]),
                  0x1_0000 * Number(h[6], h[7]) + Number(h[8], h[9]), data))
    ensures FirstRecord(h).Some? <==> data == []
  {
    var b := h + data + after;
    assert forall i :: 0 <= i < 12 ==> b[i] == h[i];
    assert b[12..12 + |data|] == data;
  }

  lemma {:induction false} ReadsRecord(r: Record, after: Bytes)
    requires Encodable(r)
    ensures FirstRecord(Encode(r) + after) == Some(r)
    ensures (Encode(r) + after)[12 + |r.data|..] == after
  {
    var b := Encode(r) + after;
    assert b[..12] == Header(r);
    HeaderFields(r, b);
    assert b[12..12 + |r.data|] == r.data;
  }

  /** The walk visits exactly the records that were encoded, whatever follows them. */
  lemma {:induction false} WalkVisitsTheRecords(rs: seq<Record>, after: Bytes)
    requires AllEncodable(rs)
    ensures Walk(EncodeAll(rs) + after, |rs|) == Some(rs)
    decreases |rs|
  {
    hide Encode, FirstRecord, Encodable;
    if rs != [] {
      var tail := EncodeAll(rs[1..]) + after;
      assert EncodeAll(rs) + after == Encode(rs[0]) + tail;
      ReadsRecord(rs[0], tail);
      WalkVisitsTheRecords(rs[1..], after);
      assert [rs[0]] + rs[1..] == rs;
    }
  }

  lemma {:induction false} RecordReencodes(b: Bytes)
    requires FirstRecord(b).Some?
    ensures Encode(FirstRecord(b).value) == b[..12 + |FirstRecord(b).value.data|]
  {
    hide U16, U32, Get16, Get32;
    var r := FirstRecord(b).value;
    HalvesOfTtl(b);
    Split16(b, 0);
    Split16(b, 2);
    Split16(b, 4);
    Split16(b, 6);
    Split16(b, 8);
    Split16(b, 10);
    assert b[..12] == b[0..2] + b[2..4] + b[4..6] + b[6..8] + b[8..10] + b[10..12];
    assert Header(r) == b[..12];
  }

  lemma {:induction false} HalvesOfTtl(b: Bytes)
    requires |b| >= 12
    ensures U32(Get32(b, 6)) == b[6..8] + b[8..10]
  {
    Split16(b, 6);
    Split16(b, 8);
    Halves(Get16(b, 6), Get16(b, 8));
  }

  lemma {:induction false} Halves(high: int, low: int)
    requires 0 <= high < 0x1_0000 && 0 <= low < 0x1_0000
    ensures U32(high * 0x1_0000 + low) == U16(high) + U16(low)
  {
  }

  lemma {:induction false} Split16(b: Bytes, at: nat)
    requires at + 2 <= |b|
    ensures U16(Get16(b, at)) == b[at..at + 2]
  {
  }

  lemma {:induction false} EncodesPrefix(rs: seq<Record>, tail: Bytes)
    requires rs != [] && AllEncodable(rs) && EncodeAll(rs[1..]) <= tail
    ensures EncodeAll(rs) <= Encode(rs[0]) + tail
  {
    var head, rest := Encode(rs[0]), EncodeAll(rs[1..]);
    assert tail == rest + tail[|rest|..];
    assert head + tail == (head + rest) + tail[|rest|..];
  }

  lemma {:induction false} WalkStep(b: Bytes, count: nat, rs: seq<Record>) returns (tail: Bytes, rest: seq<Record>)
    requires count > 0 && Walk(b, count) == Some(rs)
    ensures rs != [] && Encodable(rs[0]) && b == Encode(rs[0]) + tail
    ensures rs[1..] == rest && Walk(tail, count - 1) == Some(rest)
  {
    var r := FirstRecord(b).value;
    tail := b[12 + |r.data|..];
    RecordReencodes(b);
    rest := Walk(tail, count - 1).value;
  }

  /** The walk is the only reading: what it returns encodes to the bytes it passed over. */
  lemma {:induction false} WalkReencodes(b: Bytes, count: nat, rs: seq<Record>)
    requires Walk(b, count) == Some(rs)
    ensures |rs| == count && AllEncodable(rs) && EncodeAll(rs) <= b
    decreases count
  {
    hide Encode, FirstRecord, Encodable;
    if count > 0 {
      var tail, rest := WalkStep(b, count, rs);
      WalkReencodes(tail, count - 1, rest);
      EncodesPrefix(rs, tail);
    }
  }

  /** The sixteen octets appended to a locally answered request: an A record for the question's
      name, valid for 0x7b seconds. */
  function ReplyRecord(address: seq<Octet>): Bytes
    requires |address| == 4
  {
    U16(0xc00c) + U16(1) + U16(1) + U32(0x7b) + U16(4) + address
  }

  lemma {:induction false} ReplyRecordIsAnA(address: seq<Octet>)
    requires |address| == 4
    ensures ReplyRecord(address) == Encode(Record(0xc00c, TYPE_A, 1, 0x7b, address))
  {
  }

  /** Address round trip through the cache: four octets out of an answer, printed into the cache,
      read back and put into a reply, are the octets a client finds in that reply. */
  lemma {:induction false} OctetsSurviveTheCache(octets: seq<Octet>)
    requires |octets| == 4
    ensures FirstRecord(ReplyRecord(Read(Print(octets), 4))) == Some(Record(0xc00c, TYPE_A, 1, 0x7b, octets))
  {
    AddressRoundTrip(octets);
    ReplyRecordIsAnA(octets);
    ReadsRecord(Record(0xc00c, TYPE_A, 1, 0x7b, octets), []);
    assert ReplyRecord(octets) + [] == ReplyRecord(octets);
  }
}
