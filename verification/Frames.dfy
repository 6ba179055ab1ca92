/** The client's reader of length-prefixed messages, fed by a socket in arbitrary pieces. */
module Frames {
  import opened Octets

  /** A message with its length in front.  The payload starts with the four octets of the message
      type, so the payloads of the protocol have at least four. */
  function Frame(payload: Bytes): (b: Bytes)
    ensures |b| == 4 + |payload|
  {
    Little(|payload|, 4) + payload
  }

  function Stream(payloads: seq<Bytes>): Bytes {
    if payloads == [] then [] else Frame(payloads[0]) + Stream(payloads[1..])
  }

  /** How many messages lie wholly within the first `n` octets of the stream. */
  function Complete(payloads: seq<Bytes>, n: nat): (k: nat)
    ensures k <= |payloads|
  {
    if payloads == [] || n < 4 + |payloads[0]| then 0
    else 1 + Complete(payloads[1..], n - 4 - |payloads[0]|)
  }

  /** The static variables of the callback, the unread octets of the socket, and what was emitted. */
  datatype Reader = Reader(flag: bool, length: nat, buffer: Bytes, emitted: seq<Bytes>)

  const START := Reader(true, 0, [], [])

  /** The callback: messages are taken as long as four octets are there. */
  function Drain(r: Reader): Reader
    decreases |r.buffer|
  {
    if |r.buffer| < 4 then r else
      var (length, buffer) :=
        if r.flag then (FromLittle(r.buffer[..4]), r.buffer[4..]) else (r.length, r.buffer);
      if length == 0 then Drain(Reader(true, length, [], r.emitted))
      else if length <= |buffer| then Drain(Reader(true, length, buffer[length..], r.emitted + [buffer[..length]]))
      else Reader(false, length, buffer, r.emitted)
  }

  /** The pieces arrive one by one, with a callback after each. */
  function Receive(r: Reader, chunks: seq<Bytes>): Reader
    decreases |chunks|
  {
    if chunks == [] then r
    else Receive(Drain(r.(buffer := r.buffer + chunks[0])), chunks[1..])
  }

  function Flat(chunks: seq<Bytes>): Bytes {
    if chunks == [] then [] else chunks[0] + Flat(chunks[1..])
  }

  class NetworkHelper {
    var flag: bool
    var length: nat
    var socket: Bytes
    var emitted: seq<Bytes>

    constructor ()
      ensures State() == START
    {
      flag, length, socket, emitted := true, 0, [], [];
    }

    function State(): Reader
      reads this
    {
      Reader(flag, length, socket, emitted)
    }

    method ReadyRead()
      modifies this
      ensures State() == Drain(old(State()))
    {
      while |socket| >= 4
        invariant Drain(State()) == Drain(old(State()))
        decreases |socket|
      {
        if flag {
          length := FromLittle(socket[..4]);
          socket := socket[4..];
        }
        if length <= 0 {
          socket := [];
          flag := true;
        } else if length <= |socket| {
          flag := true;
          emitted := emitted + [socket[..length]];
          socket := socket[length..];
        } else {
          flag := false;
          return;
        }
      }
    }
  }

  // ---------------------------------------------------------------- what the reader keeps

  ghost predicate Sendable(payloads: seq<Bytes>, least: nat) {
    forall i :: 0 <= i < |payloads| ==> least <= |payloads[i]| < 0x1_0000_0000
  }

  /** What was taken from the socket or is still there, but belongs to no emitted message. */
  function Pending(r: Reader): Bytes {
    if r.flag then r.buffer else Little(r.length, 4) + r.buffer
  }

  /** The reader has seen `n` octets of the stream: they are the emitted messages, in order, and
      the beginning of the rest. */
  ghost predicate Tracks(payloads: seq<Bytes>, r: Reader, n: nat) {
    && r.emitted <= payloads
    && |Stream(r.emitted)| + |Pending(r)| == n
    && Ahead(payloads[|r.emitted|..], r)
  }

  ghost predicate Ahead(rest: seq<Bytes>, r: Reader) {
    && Pending(r) <= Stream(rest)
    && (!r.flag ==> rest != [] && r.length == |rest[0]|)
  }

  /** The callback has nothing more to do. */
  predicate Idle(r: Reader) {
    |r.buffer| < 4 || (!r.flag && r.length > |r.buffer|)
  }

  lemma {:induction false} StreamConcat(a: seq<Bytes>, b: seq<Bytes>)
    ensures Stream(a + b) == Stream(a) + Stream(b)
  {
    if a == [] {
      assert a + b == b;
    } else {
      assert (a + b)[1..] == a[1..] + b;
      StreamConcat(a[1..], b);
    }
  }

  lemma {:induction false} HeaderRoundTrip(payload: Bytes)
    requires |payload| < 0x1_0000_0000
    ensures FromLittle(Little(|payload|, 4)) == |payload|
  {
    assert Power(256, 4) == 0x1_0000_0000;
    LittleRoundTrip(|payload|, 4);
  }

  /** Reading a header. */
  lemma {:induction false} HeaderIsRead(rest: seq<Bytes>, r: Reader)
    requires Sendable(rest, 1) && Ahead(rest, r) && r.flag && |r.buffer| >= 4
    ensures Ahead(rest, Reader(false, FromLittle(r.buffer[..4]), r.buffer[4..], r.emitted))
    ensures Pending(Reader(false, FromLittle(r.buffer[..4]), r.buffer[4..], r.emitted)) == Pending(r)
  {
    assert rest != [];
    var s := Stream(rest);
    HeaderRoundTrip(rest[0]);
    assert r.buffer[..4] == s[..4] == Little(|rest[0]|, 4);
    assert r.buffer == r.buffer[..4] + r.buffer[4..];
  }

  /** Taking a message. */
  lemma {:induction false} MessageIsTaken(rest: seq<Bytes>, r: Reader)
    requires Ahead(rest, r) && !r.flag && r.length <= |r.buffer|
    ensures r.buffer[..r.length] == rest[0]
    ensures Ahead(rest[1..], Reader(true, r.length, r.buffer[r.length..], r.emitted + [r.buffer[..r.length]]))
    ensures |Pending(r)| == 4 + r.length + |r.buffer[r.length..]|
  {
    var s, h := Stream(rest), Little(r.length, 4);
    assert s == h + (rest[0] + Stream(rest[1..]));
    assert r.buffer <= rest[0] + Stream(rest[1..]) by {
      assert forall i :: 0 <= i < |r.buffer| ==> r.buffer[i] == (h + r.buffer)[4 + i] == s[4 + i];
    }
  }

  /** The callback keeps track. */
  lemma {:induction false} DrainTracks(payloads: seq<Bytes>, r: Reader, n: nat)
    requires Sendable(payloads, 1) && Tracks(payloads, r, n)
    ensures Tracks(payloads, Drain(r), n) && Idle(Drain(r))
    decreases |r.buffer|
  {
    if |r.buffer| >= 4 {
      var rest := payloads[|r.emitted|..];
      var h := if r.flag then Reader(false, FromLittle(r.buffer[..4]), r.buffer[4..], r.emitted) else r;
      if r.flag { HeaderIsRead(rest, r); }
      if h.length <= |h.buffer| {
        MessageIsTaken(rest, h);
        var taken := Reader(true, h.length, h.buffer[h.length..], h.emitted + [h.buffer[..h.length]]);
        StreamConcat(h.emitted, [rest[0]]);
        assert Stream([rest[0]]) == Frame(rest[0]) + [];
        assert payloads[|taken.emitted|..] == rest[1..];
        DrainTracks(payloads, taken, n);
      }
    }
  }

  /** The octets lie in the stream from place `n` on. */
  ghost predicate Lies(stream: Bytes, n: nat, octets: Bytes) {
    n + |octets| <= |stream| && stream[n..n + |octets|] == octets
  }

  /** Nothing is dropped, doubled or reordered, in whatever pieces the stream arrives. */
  lemma {:induction false} ReceiveTracks(payloads: seq<Bytes>, r: Reader, n: nat, chunks: seq<Bytes>)
    requires Sendable(payloads, 1) && Tracks(payloads, r, n) && Idle(r)
    requires Lies(Stream(payloads), n, Flat(chunks))
    ensures Tracks(payloads, Receive(r, chunks), n + |Flat(chunks)|) && Idle(Receive(r, chunks))
    decreases |chunks|
  {
    hide Tracks, Drain, Idle, Stream, Sendable, Lies, Receive, Flat;
    FirstChunk(r, chunks);
    if chunks != [] {
      var fed, m, later := r.(buffer := r.buffer + chunks[0]), n + |chunks[0]|, Flat(chunks[1..]);
      ChunkTracks(payloads, r, n, chunks[0], later);
      DrainTracks(payloads, fed, m);
      ReceiveTracks(payloads, Drain(fed), m, chunks[1..]);
    }
  }

  lemma {:induction false} FirstChunk(r: Reader, chunks: seq<Bytes>)
    ensures if chunks == [] then Receive(r, chunks) == r && Flat(chunks) == [] else
      && Receive(r, chunks) == Receive(Drain(r.(buffer := r.buffer + chunks[0])), chunks[1..])
      && Flat(chunks) == chunks[0] + Flat(chunks[1..])
  {
  }

  lemma {:induction false} ChunkTracks(payloads: seq<Bytes>, r: Reader, n: nat, chunk: Bytes, later: Bytes)
    requires Tracks(payloads, r, n) && Lies(Stream(payloads), n, chunk + later)
    ensures Tracks(payloads, r.(buffer := r.buffer + chunk), n + |chunk|)
    ensures Lies(Stream(payloads), n + |chunk|, later)
  {
    var done, rest := Stream(r.emitted), payloads[|r.emitted|..];
    hide Stream;
    StreamConcat(r.emitted, rest);
    assert payloads == r.emitted + rest;
    var fed := r.(buffer := r.buffer + chunk);
    assert Pending(fed) == Pending(r) + chunk;
    Continues(done, Stream(rest), Pending(r), chunk, later);
  }

  lemma {:induction false} Continues(done: Bytes, rest: Bytes, pending: Bytes, chunk: Bytes, later: Bytes)
    requires var n := |done| + |pending|;
      && pending <= rest && n + |chunk + later| <= |done + rest|
      && (done + rest)[n..n + |chunk + later|] == chunk + later
    ensures var n := |done| + |pending|;
      pending + chunk <= rest && (done + rest)[n + |chunk|..n + |chunk| + |later|] == later
  {
    var n := |done| + |pending|;
    var part := (done + rest)[n..n + |chunk + later|];
    assert part[..|chunk|] == chunk && part[|chunk|..] == later;
    assert rest[|pending|..|pending| + |chunk|] == part[..|chunk|];
    assert rest[..|pending| + |chunk|] == pending + chunk;
  }

  // ---------------------------------------------------------------- exactness

  lemma {:induction false} CompleteSkips(before: seq<Bytes>, rest: seq<Bytes>, n: nat)
    requires n >= |Stream(before)|
    ensures Complete(before + rest, n) == |before| + Complete(rest, n - |Stream(before)|)
  {
    if before == [] {
      assert before + rest == rest;
    } else {
      assert (before + rest)[1..] == before[1..] + rest;
      CompleteSkips(before[1..], rest, n - 4 - |before[0]|);
    }
  }

  /** An idle reader has emitted every complete message, or every one but the last, which then
      has fewer than four octets and waits in the buffer. */
  lemma {:induction false} IdleReaderLag(payloads: seq<Bytes>, r: Reader, n: nat)
    requires Sendable(payloads, 1) && Tracks(payloads, r, n) && Idle(r)
    ensures var k, all := |r.emitted|, Complete(payloads, n);
      && k <= all <= k + 1
      && (all == k + 1 ==> |payloads[k]| < 4 && !r.flag && |payloads[k]| <= |r.buffer| < 4)
  {
    var k := |r.emitted|;
    var rest := payloads[k..];
    assert payloads == r.emitted + rest;
    CompleteSkips(r.emitted, rest, n);
    if rest != [] && |Pending(r)| >= 4 + |rest[0]| {
      assert !r.flag && |r.buffer| < 4;
      assert |Pending(r)| - 4 - |rest[0]| < 4;
    }
  }

  lemma {:induction false} StartTracks(payloads: seq<Bytes>)
    ensures Tracks(payloads, START, 0) && Idle(START)
  {
  }

  /** Whatever pieces a part of the stream arrives in: exactly its complete messages have been
      emitted, in order, if every payload has four octets or more. */
  lemma {:induction false} EmitsTheComplete(payloads: seq<Bytes>, chunks: seq<Bytes>)
    requires Sendable(payloads, 4) && Flat(chunks) <= Stream(payloads)
    ensures Receive(START, chunks).emitted == payloads[..Complete(payloads, |Flat(chunks)|)]
  {
    StartTracks(payloads);
    assert Stream(payloads)[0..0 + |Flat(chunks)|] == Flat(chunks);
    ReceiveTracks(payloads, START, 0, chunks);
    IdleReaderLag(payloads, Receive(START, chunks), |Flat(chunks)|);
  }

  ghost predicate Exact(payloads: seq<Bytes>, chunks: seq<Bytes>) {
    Flat(chunks) <= Stream(payloads) ==>
      Receive(START, chunks).emitted == payloads[..Complete(payloads, |Flat(chunks)|)]
  }

  /** The pieces that show a short payload: all before it, its header, itself. */
  function Pieces(payloads: seq<Bytes>, k: nat): (c: seq<Bytes>)
    requires k < |payloads|
  {
    [Stream(payloads[..k]), Little(|payloads[k]|, 4), payloads[k]]
  }

  lemma {:induction false} ReceiveInTwo(r: Reader, a: seq<Bytes>, b: seq<Bytes>)
    ensures Receive(r, a + b) == Receive(Receive(r, a), b)
    decreases |a|
  {
    if a == [] {
      assert a + b == b;
    } else {
      assert (a + b)[1..] == a[1..] + b;
      ReceiveInTwo(Drain(r.(buffer := r.buffer + a[0])), a[1..], b);
    }
  }

  /** After whole messages only, the reader is back where it started. */
  lemma {:induction false} AfterWholeMessages(payloads: seq<Bytes>)
    requires Sendable(payloads, 4)
    ensures var r := Receive(START, [Stream(payloads)]);
      r.flag && r.buffer == [] && r.emitted == payloads
  {
    var chunks, n := [Stream(payloads)], |Stream(payloads)|;
    assert Flat(chunks) == Stream(payloads) + [];
    StartTracks(payloads);
    assert Stream(payloads)[0..0 + n] == Flat(chunks);
    ReceiveTracks(payloads, START, 0, chunks);
    EmitsTheComplete(payloads, chunks);
    CompleteSkips(payloads, [], n);
    assert payloads + [] == payloads;
  }

  lemma {:induction false} ShortPairIsMissed(r: Reader, p: Bytes)
    requires r.flag && r.buffer == [] && |p| < 4
    ensures Receive(r, [Little(|p|, 4), p]).emitted == r.emitted
  {
    var header := Little(|p|, 4);
    HeaderRoundTrip(p);
    var fed := r.(buffer := r.buffer + header);
    assert fed.buffer[..4] == header && fed.buffer[4..] == [];
    var nothing := Reader(true, 0, [], r.emitted);
    assert Drain(nothing) == nothing;
    var waiting := Drain(fed);
    assert waiting == Reader(|p| == 0, |p|, [], r.emitted);
    var last := waiting.(buffer := waiting.buffer + p);
    assert Drain(last) == last;
    assert [header, p][1..] == [p];
    assert Receive(waiting, [p]) == Receive(Drain(last), [p][1..]);
  }

  lemma {:induction false} FlatOfThree(a: Bytes, b: Bytes, c: Bytes)
    ensures Flat([a, b, c]) == a + (b + c)
  {
    assert [a, b, c][1..] == [b, c] && [b, c][1..] == [c];
    assert Flat([c]) == c + Flat([c][1..]) == c;
    assert Flat([b, c]) == b + c;
  }

  lemma {:induction false} ShortPayloadIsMissed(payloads: seq<Bytes>, k: nat)
    requires Sendable(payloads, 0) && k < |payloads| && |payloads[k]| < 4 && Sendable(payloads[..k], 4)
    ensures !Exact(payloads, Pieces(payloads, k))
  {
    var done, p := payloads[..k], payloads[k];
    var chunks := Pieces(payloads, k);
    var first, header := [Stream(done)], Little(|p|, 4);
    AfterWholeMessages(done);
    var r := Receive(START, first);
    assert chunks == first + [header, p];
    ReceiveInTwo(START, first, [header, p]);
    ShortPairIsMissed(r, p);
    assert payloads == done + payloads[k..];
    StreamConcat(done, payloads[k..]);
    FlatOfThree(Stream(done), header, p);
    CompleteSkips(done, payloads[k..], |Flat(chunks)|);
    assert Complete(payloads[k..], |Frame(p)|) >= 1;
  }

  lemma {:induction false} FirstShort(payloads: seq<Bytes>, k: nat) returns (j: nat)
    requires k < |payloads| && |payloads[k]| < 4 && Sendable(payloads, 0)
    ensures j <= k && |payloads[j]| < 4 && Sendable(payloads[..j], 4)
  {
    j := 0;
    while |payloads[j]| >= 4
      invariant j <= k && Sendable(payloads[..j], 4)
      decreases k - j
    {
      j := j + 1;
    }
  }

  /** The reader emits exactly the complete messages, after every piece and for every way to cut
      the stream, if and only if no payload has fewer than four octets. */
  lemma {:induction false} ExactIff(payloads: seq<Bytes>)
    requires Sendable(payloads, 0)
    ensures (forall chunks :: Exact(payloads, chunks)) <==> Sendable(payloads, 4)
  {
    if Sendable(payloads, 4) {
      forall chunks ensures Exact(payloads, chunks) {
        if Flat(chunks) <= Stream(payloads) { EmitsTheComplete(payloads, chunks); }
      }
    } else {
      var k :| 0 <= k < |payloads| && |payloads[k]| < 4;
      var j := FirstShort(payloads, k);
      ShortPayloadIsMissed(payloads, j);
    }
  }

  /** A length of zero makes the reader throw away whatever is in the socket behind it. */
  lemma {:induction false} EmptyMessageDropsTheRest(r: Reader, behind: Bytes)
    requires r.flag && r.buffer == []
    ensures Drain(r.(buffer := Frame([]) + behind)) == Reader(true, 0, [], r.emitted)
  {
    var b := Frame([]) + behind;
    LittleRoundTrip(0, 4);
    assert b[..4] == Frame([]) == Little(0, 4);
  }
}
