/** Laws of the codecs, for every schema: parsing a serialized message is merging it, so parsing
    undoes serializing, up to the sign of a zero, and concatenating encodings merges messages. */
module CodecLaws {
  import opened Octets
  import opened Options
  import opened Wire
  import opened Schemas

  /** Field numbers below 2^29, so that tags have 32 bits. */
  ghost predicate Numbered(s: Schema) {
    |s.kinds| < 0x2000_0000 && forall k :: 0 <= k < |s.kinds| ==> NumberedKind(s.kinds[k])
  }

  ghost predicate NumberedKind(k: Kind) {
    k.Messages? ==> Numbered(k.inner)
  }

  // ---------------------------------------------------------------- parsing in pieces

  lemma {:induction false} ValueExtends(k: Kind, wire: nat, v: Value, b: Bytes, more: Bytes)
    requires TypedValue(k, v) && Fits(k, wire) && ReadValue(k, wire, v, b).Done?
    ensures ReadValue(k, wire, v, b + more) ==
      Done((ReadValue(k, wire, v, b).value.0, ReadValue(k, wire, v, b).value.1 + more))
  {
    if wire == VARINT {
      VarintExtends(b, 10, more);
    } else if wire == FIXED64 {
      assert (b + more)[..8] == b[..8] && (b + more)[8..] == b[8..] + more;
    } else {
      BlockExtends(b, more);
    }
  }

  /** Input that parses may arrive in two pieces: the second continues where the first stopped. */
  lemma {:induction false} ParseInPieces(s: Schema, m: Message, a: Bytes, b: Bytes)
    requires Typed(s, m) && Parse(s, m, a).Done?
    ensures Parse(s, m, a + b) == Parse(s, Parse(s, m, a).value, b)
    decreases |a|
  {
    if a == [] {
      assert a + b == b;
    } else {
      VarintExtends(a, 5, b);
      var (tag, rest) := ReadTag(a).value;
      var k, wire := tag / 8 - 1, tag % 8;
      ValueExtends(s.kinds[k], wire, m.values[k], rest, b);
      var (v, rest') := ReadValue(s.kinds[k], wire, m.values[k], rest).value;
      ParseInPieces(s, Put(m, k, v), rest', b);
    }
  }

  // ---------------------------------------------------------------- one field

  lemma {:induction false} OneField(s: Schema, m: Message, k: nat, wire: nat, body: Bytes)
    requires Typed(s, m) && Numbered(s) && k < |s.kinds| && wire < 8 && Fits(s.kinds[k], wire)
    requires ReadValue(s.kinds[k], wire, m.values[k], body).Done?
    requires ReadValue(s.kinds[k], wire, m.values[k], body).value.1 == []
    ensures Parse(s, m, Varint(Tag(k + 1, wire)) + body) ==
      Done(Put(m, k, ReadValue(s.kinds[k], wire, m.values[k], body).value.0))
  {
    hide ReadValue, Varint, ReadTag, TypedValue, Fits;
    TagRoundTrip(Tag(k + 1, wire), body);
  }

  lemma {:induction false} IntsRoundTrip(s: seq<int>)
    requires forall i :: 0 <= i < |s| ==> IsInt32(s[i])
    ensures ReadInts(WriteInts(s)) == Some(s)
  {
    hide Varint, ReadVarint64, ToWord, ToInt32;
    if s != [] {
      Varint64RoundTrip(ToWord(s[0]), WriteInts(s[1..]));
      Int32RoundTrip(s[0]);
      IntsRoundTrip(s[1..]);
      assert [s[0]] + s[1..] == s;
    }
  }

  lemma {:induction false} BlockIsWhole(b: Bytes)
    requires |b| <= MAX_LENGTH
    ensures ReadBlock(Block(b)) == Some((b, []))
  {
    BlockRoundTrip(b, []);
    assert Block(b) + [] == Block(b);
  }

  lemma {:induction false} VarintIsWhole(i: int)
    requires IsInt32(i)
    ensures ReadVarint64(Varint(ToWord(i))) == Some((ToWord(i), [])) && ToInt32(ToWord(i)) == i
  {
    Varint64RoundTrip(ToWord(i), []);
    Int32RoundTrip(i);
    assert Varint(ToWord(i)) + [] == Varint(ToWord(i));
  }

  lemma {:induction false} DoubleIsWhole(d: nat)
    requires d < WORD
    ensures FromLittle(Little(d, 8)) == d
  {
    assert Power(256, 2) == 0x1_0000;
    PowerOfSum(256, 2, 2);
    PowerOfSum(256, 4, 4);
    LittleRoundTrip(d, 8);
  }

  /** A list of numbers may come one by one as well, each behind a tag of its own. */
  lemma {:induction false} SingleNumberIsAppended(s: Schema, m: Message, k: nat, i: int)
    requires Typed(s, m) && Numbered(s) && k < |s.kinds| && s.kinds[k] == PackedInt32 && IsInt32(i)
    ensures m.values[k].Ints?
    ensures Parse(s, m, Varint(8 * (k + 1)) + Varint(ToWord(i))) == Done(Put(m, k, Ints(m.values[k].s + [i])))
  {
    hide Parse, Varint, ToWord, ReadVarint64;
    assert TypedValue(s.kinds[k], m.values[k]);
    VarintIsWhole(i);
    OneField(s, m, k, VARINT, Varint(ToWord(i)));
  }

  /** Parsing a field as it was written merges it. */
  lemma {:induction false} FieldRoundTrip(s: Schema, m: Message, k: nat, w: Value)
    requires Typed(s, m) && Numbered(s) && k < |s.kinds| && TypedValue(s.kinds[k], w)
    requires |WriteValue(k + 1, s.kinds[k], w)| <= MAX_LENGTH
    ensures Parse(s, m, WriteValue(k + 1, s.kinds[k], w)) == Done(Put(m, k, MergeValue(s.kinds[k], m.values[k], w)))
    decreases s, 0
  {
    assert NumberedKind(s.kinds[k]);
    assert Put(m, k, m.values[k]) == m;
    match s.kinds[k]
    case Int32 =>
      if w.i != 0 {
        VarintIsWhole(w.i);
        OneField(s, m, k, VARINT, Varint(ToWord(w.i)));
      }
    case Text =>
      if w.b != [] {
        BlockIsWhole(w.b);
        OneField(s, m, k, DELIMITED, Block(w.b));
      }
    case Double =>
      if !IsZero(w.d) {
        DoubleIsWhole(w.d);
        assert Little(w.d, 8)[..8] == Little(w.d, 8);
        OneField(s, m, k, FIXED64, Little(w.d, 8));
      }
    case PackedInt32 =>
      if w.s == [] {
        assert m.values[k].s + w.s == m.values[k].s;
      } else {
        IntsRoundTrip(w.s);
        BlockIsWhole(WriteInts(w.s));
        OneField(s, m, k, DELIMITED, Block(WriteInts(w.s)));
      }
    case Messages(inner) =>
      SubsRoundTrip(s, m, k, w.ms);
  }

  /** One nested message, given that parsing its encoding makes a copy. */
  lemma {:induction false} OneSub(s: Schema, m: Message, k: nat, sub: Message)
    requires Typed(s, m) && Numbered(s) && k < |s.kinds| && s.kinds[k].Messages? && m.values[k].Subs?
    requires var inner := s.kinds[k].inner;
      && Typed(inner, sub) && |Serialize(inner, sub)| <= MAX_LENGTH && Typed(inner, Cleared(inner))
      && Parse(inner, Cleared(inner), Serialize(inner, sub)) == Done(Merge(inner, Cleared(inner), sub))
    ensures var inner := s.kinds[k].inner;
      Parse(s, m, Varint(Tag(k + 1, DELIMITED)) + Block(Serialize(inner, sub)))
      == Done(Put(m, k, Subs(m.values[k].ms + [Merge(inner, Cleared(inner), sub)])))
  {
    hide Parse, Serialize, Merge, Block, Varint, Numbered;
    var inner := s.kinds[k].inner;
    BlockIsWhole(Serialize(inner, sub));
    OneField(s, m, k, DELIMITED, Block(Serialize(inner, sub)));
  }

  lemma {:induction false} PartsAreShorter(number: nat, s: Schema, ms: seq<Message>)
    requires AllTyped(s, ms) && ms != []
    ensures Typed(s, ms[0]) && AllTyped(s, ms[1..])
    ensures |Serialize(s, ms[0])| < |WriteSubs(number, s, ms)|
        && |WriteSubs(number, s, ms[1..])| < |WriteSubs(number, s, ms)|
  {
    hide Serialize, Varint;
  }

  lemma {:induction false} PutTwice(m: Message, k: nat, v: Value, w: Value)
    requires k < |m.values|
    ensures Put(Put(m, k, v), k, w) == Put(m, k, w)
  {
  }

  lemma {:induction false} SubsRoundTrip(s: Schema, m: Message, k: nat, ms: seq<Message>)
    requires Typed(s, m) && Numbered(s) && k < |s.kinds| && s.kinds[k].Messages? && m.values[k].Subs?
    requires AllTyped(s.kinds[k].inner, ms) && |WriteSubs(k + 1, s.kinds[k].inner, ms)| <= MAX_LENGTH
    ensures Parse(s, m, WriteSubs(k + 1, s.kinds[k].inner, ms)) ==
      Done(Put(m, k, Subs(m.values[k].ms + Copies(s.kinds[k].inner, ms))))
    decreases s.kinds[k].inner, 3, |ms|
  {
    hide Serialize, Merge, Varint, Block, Parse, Tag, MergeValue, TypedValue, Typed, AllTyped, Numbered;
    NothingIsParsed(s, m);
    var inner, held := s.kinds[k].inner, m.values[k].ms;
    if ms == [] {
      assert held + [] == held;
      assert Put(m, k, m.values[k]) == m;
    } else {
      KindIsNumbered(s, k);
      PartsAreShorter(k + 1, inner, ms);
      ClearedIsTyped(inner);
      SerializedIsMerged(inner, Cleared(inner), ms[0]);
      OneSub(s, m, k, ms[0]);
      var v := Subs(held + [Merge(inner, Cleared(inner), ms[0])]);
      ParseInPieces(s, m, Varint(Tag(k + 1, DELIMITED)) + Block(Serialize(inner, ms[0])), WriteSubs(k + 1, inner,
          ms[1..]));
      SubsRoundTrip(s, Put(m, k, v), k, ms[1..]);
      assert v.ms + Copies(inner, ms[1..]) == held + Copies(inner, ms);
      PutTwice(m, k, v, Subs(held + Copies(inner, ms)));
    }
  }

  lemma {:induction false} NothingIsParsed(s: Schema, m: Message)
    requires Typed(s, m)
    ensures Parse(s, m, []) == Done(m) && |m.values| == |s.kinds|
  {
  }

  lemma {:induction false} KindIsNumbered(s: Schema, k: nat)
    requires Numbered(s) && k < |s.kinds| && s.kinds[k].Messages?
    ensures Numbered(s.kinds[k].inner)
  {
    assert NumberedKind(s.kinds[k]);
  }

  // ---------------------------------------------------------------- whole messages

  /** The fields from `k` on are merged, the ones before are those of `m`. */
  ghost function MergeFrom(s: Schema, m: Message, n: Message, k: nat): (r: Message)
    requires Typed(s, m) && Typed(s, n) && k <= |s.kinds|
  {
    Message(m.values[..k] + Merge(s, m, n).values[k..])
  }

  lemma {:induction false} MergeFromEnd(s: Schema, m: Message, n: Message)
    requires Typed(s, m) && Typed(s, n)
    ensures MergeFrom(s, m, n, |s.kinds|) == m && MergeFrom(s, m, n, 0) == Merge(s, m, n)
  {
  }

  lemma {:induction false} MergeFromStep(s: Schema, m: Message, n: Message, k: nat, m': Message)
    requires Typed(s, m) && Typed(s, n) && k < |s.kinds| && Typed(s, m')
    requires m' == Put(m, k, MergeValue(s.kinds[k], m.values[k], n.values[k]))
    ensures MergeFrom(s, m', n, k + 1) == MergeFrom(s, m, n, k)
  {
    hide MergeValue, TypedValue;
    assert MergeFrom(s, m', n, k + 1).values == MergeFrom(s, m, n, k).values;
  }

  lemma {:induction false} TailRoundTrip(s: Schema, m: Message, n: Message, k: nat)
    requires Typed(s, m) && Typed(s, n) && Numbered(s) && k <= |s.kinds|
    requires |WriteFrom(s, n, k)| <= MAX_LENGTH
    ensures Parse(s, m, WriteFrom(s, n, k)) == Done(MergeFrom(s, m, n, k))
    decreases s, 1, |s.kinds| - k
  {
    if k == |s.kinds| {
      MergeFromEnd(s, m, n);
    } else {
      hide Parse, WriteValue, MergeValue, MergeFrom, Put, TypedValue, Numbered;
      var m' := Put(m, k, MergeValue(s.kinds[k], m.values[k], n.values[k]));
      FieldRoundTrip(s, m, k, n.values[k]);
      ParseInPieces(s, m, WriteValue(k + 1, s.kinds[k], n.values[k]), WriteFrom(s, n, k + 1));
      TailRoundTrip(s, m', n, k + 1);
      MergeFromStep(s, m, n, k, m');
    }
  }

  /** Parsing the encoding of `n` into `m` merges `n` into `m`. */
  lemma {:induction false} SerializedIsMerged(s: Schema, m: Message, n: Message)
    requires Typed(s, m) && Typed(s, n) && Numbered(s) && |Serialize(s, n)| <= MAX_LENGTH
    ensures Parse(s, m, Serialize(s, n)) == Done(Merge(s, m, n))
    decreases s, 2
  {
    TailRoundTrip(s, m, n, 0);
    MergeFromEnd(s, m, n);
  }

  /** A message as a cleared one receives it. */
  ghost function Copy(s: Schema, m: Message): (r: Message)
    requires Typed(s, m)
    ensures Typed(s, r)
  {
    ClearedIsTyped(s);
    MergeIsTyped(s, Cleared(s), m);
    Merge(s, Cleared(s), m)
  }

  lemma {:induction false} MergeIsTyped(s: Schema, m: Message, n: Message)
    requires Typed(s, m) && Typed(s, n)
    ensures Typed(s, Merge(s, m, n))
    decreases s, 0
  {
    forall k | 0 <= k < |s.kinds|
      ensures TypedValue(s.kinds[k], MergeValue(s.kinds[k], m.values[k], n.values[k]))
    {
      if s.kinds[k].Messages? {
        CopiesAreTyped(s.kinds[k].inner, n.values[k].ms);
        AllTypedConcat(s.kinds[k].inner, m.values[k].ms, Copies(s.kinds[k].inner, n.values[k].ms));
      }
    }
  }

  lemma {:induction false} CopiesAreTyped(s: Schema, ms: seq<Message>)
    requires AllTyped(s, ms)
    ensures AllTyped(s, Copies(s, ms))
    decreases s, 1, |ms|
  {
    if ms != [] {
      ClearedIsTyped(s);
      MergeIsTyped(s, Cleared(s), ms[0]);
      CopiesAreTyped(s, ms[1..]);
      assert Copies(s, ms)[1..] == Copies(s, ms[1..]);
    }
  }

  lemma {:induction false} AllTypedConcat(s: Schema, a: seq<Message>, b: seq<Message>)
    requires AllTyped(s, a) && AllTyped(s, b)
    ensures AllTyped(s, a + b)
  {
    if a == [] {
      assert a + b == b;
    } else {
      AllTypedConcat(s, a[1..], b);
      assert (a + b)[1..] == a[1..] + b;
    }
  }

  /** Concatenation is merging. */
  lemma {:induction false} ConcatenationIsMerge(s: Schema, a: Message, b: Message)
    requires Typed(s, a) && Typed(s, b) && Numbered(s)
    requires |Serialize(s, a)| <= MAX_LENGTH && |Serialize(s, b)| <= MAX_LENGTH
    ensures Typed(s, Cleared(s))
    ensures Parse(s, Cleared(s), Serialize(s, a) + Serialize(s, b)) == Done(Merge(s, Copy(s, a), b))
  {
    hide Parse, Serialize, Merge, Typed, Numbered;
    ClearedIsTyped(s);
    SerializedIsMerged(s, Cleared(s), a);
    ParseInPieces(s, Cleared(s), Serialize(s, a), Serialize(s, b));
    SerializedIsMerged(s, Copy(s, a), b);
  }

  // ---------------------------------------------------------------- round trip

  /** No double field, at any depth, holds -0.0. */
  ghost predicate NoMinusZero(s: Schema, m: Message)
    requires Typed(s, m)
    decreases s, 0
  {
    forall k :: 0 <= k < |s.kinds| ==> PlainValue(s.kinds[k], m.values[k])
  }

  ghost predicate PlainValue(k: Kind, v: Value)
    requires TypedValue(k, v)
    decreases k
  {
    match k
    case Double => v.d != MINUS_ZERO
    case Messages(inner) => AllPlain(inner, v.ms)
    case _ => true
  }

  ghost predicate AllPlain(s: Schema, ms: seq<Message>)
    requires AllTyped(s, ms)
    decreases s, 1, |ms|
  {
    ms == [] || (NoMinusZero(s, ms[0]) && AllPlain(s, ms[1..]))
  }

  /** No field, at any depth, is a double. */
  predicate NoDoubles(s: Schema) {
    forall k :: 0 <= k < |s.kinds| ==> NoDouble(s.kinds[k])
  }

  predicate NoDouble(k: Kind) {
    k != Double && (k.Messages? ==> NoDoubles(k.inner))
  }

  lemma {:induction false} NoDoublesNoMinusZero(s: Schema, m: Message)
    requires Typed(s, m) && NoDoubles(s)
    ensures NoMinusZero(s, m)
    decreases s, 0
  {
    forall k | 0 <= k < |s.kinds| ensures PlainValue(s.kinds[k], m.values[k]) {
      assert NoDouble(s.kinds[k]);
      if s.kinds[k].Messages? {
        NoDoublesAllPlain(s.kinds[k].inner, m.values[k].ms);
      }
    }
  }

  lemma {:induction false} NoDoublesAllPlain(s: Schema, ms: seq<Message>)
    requires AllTyped(s, ms) && NoDoubles(s)
    ensures AllPlain(s, ms)
    decreases s, 1, |ms|
  {
    if ms != [] {
      NoDoublesNoMinusZero(s, ms[0]);
      NoDoublesAllPlain(s, ms[1..]);
    }
  }

  lemma {:induction false} CopyIsEqualIff(s: Schema, m: Message)
    requires Typed(s, m)
    ensures Copy(s, m) == m <==> NoMinusZero(s, m)
    decreases s, 0
  {
    forall k | 0 <= k < |s.kinds|
      ensures Copy(s, m).values[k] == m.values[k] <==> PlainValue(s.kinds[k], m.values[k])
    {
      ValueIsEqualIff(s.kinds[k], m.values[k]);
      assert Copy(s, m).values[k] == MergeValue(s.kinds[k], DefaultValue(s.kinds[k]), m.values[k]);
    }
    if forall k :: 0 <= k < |s.kinds| ==> Copy(s, m).values[k] == m.values[k] {
      assert Copy(s, m).values == m.values;
    }
  }

  lemma {:induction false} ValueIsEqualIff(k: Kind, v: Value)
    requires TypedValue(k, v)
    ensures MergeValue(k, DefaultValue(k), v) == v <==> PlainValue(k, v)
    decreases k
  {
    match k
    case PackedInt32 => assert [] + v.s == v.s;
    case Messages(inner) =>
      CopiesAreEqualIff(inner, v.ms);
      assert [] + Copies(inner, v.ms) == Copies(inner, v.ms);
    case _ =>
  }

  lemma {:induction false} CopiesAreEqualIff(s: Schema, ms: seq<Message>)
    requires AllTyped(s, ms)
    ensures Copies(s, ms) == ms <==> AllPlain(s, ms)
    decreases s, 1, |ms|
  {
    if ms != [] {
      CopyIsEqualIff(s, ms[0]);
      CopiesAreEqualIff(s, ms[1..]);
      assert Copies(s, ms)[0] == Copy(s, ms[0]) && Copies(s, ms)[1..] == Copies(s, ms[1..]);
      assert ms == [ms[0]] + ms[1..];
    }
  }

  /** Round trip: a message comes back from its encoding exactly when it holds no -0.0. */
  lemma {:induction false} RoundTripIff(s: Schema, m: Message)
    requires Typed(s, m) && Numbered(s) && |Serialize(s, m)| <= MAX_LENGTH
    ensures Typed(s, Cleared(s))
    ensures Parse(s, Cleared(s), Serialize(s, m)) == Done(m) <==> NoMinusZero(s, m)
  {
    ClearedIsTyped(s);
    SerializedIsMerged(s, Cleared(s), m);
    CopyIsEqualIff(s, m);
  }

  /** What comes back is encoded like the original. */
  lemma {:induction false} CopySerializesAlike(s: Schema, m: Message)
    requires Typed(s, m)
    ensures Serialize(s, Copy(s, m)) == Serialize(s, m)
    decreases s, 1
  {
    TailSerializesAlike(s, m, 0);
  }

  lemma {:induction false} TailSerializesAlike(s: Schema, m: Message, k: nat)
    requires Typed(s, m) && k <= |s.kinds|
    ensures WriteFrom(s, Copy(s, m), k) == WriteFrom(s, m, k)
    decreases s, 0, |s.kinds| - k
  {
    if k < |s.kinds| {
      assert TypedValue(s.kinds[k], Copy(s, m).values[k]);
      assert Copy(s, m).values[k] == MergeValue(s.kinds[k], DefaultValue(s.kinds[k]), m.values[k]);
      ValueSerializesAlike(k + 1, s.kinds[k], m.values[k]);
      TailSerializesAlike(s, m, k + 1);
    }
  }

  lemma {:induction false} ValueSerializesAlike(number: nat, k: Kind, v: Value)
    requires TypedValue(k, v) && TypedValue(k, MergeValue(k, DefaultValue(k), v))
    ensures WriteValue(number, k, MergeValue(k, DefaultValue(k), v)) == WriteValue(number, k, v)
    decreases k
  {
    match k
    case PackedInt32 => assert [] + v.s == v.s;
    case Messages(inner) =>
      assert [] + Copies(inner, v.ms) == Copies(inner, v.ms);
      CopiesSerializeAlike(number, inner, v.ms);
    case _ =>
  }

  lemma {:induction false} CopiesSerializeAlike(number: nat, s: Schema, ms: seq<Message>)
    requires AllTyped(s, ms) && AllTyped(s, Copies(s, ms))
    ensures WriteSubs(number, s, Copies(s, ms)) == WriteSubs(number, s, ms)
    decreases s, 2, |ms|
  {
    if ms != [] {
      CopySerializesAlike(s, ms[0]);
      CopiesAreTyped(s, ms[1..]);
      CopiesSerializeAlike(number, s, ms[1..]);
      assert Copies(s, ms)[1..] == Copies(s, ms[1..]);
    }
  }

  /** Two messages have the same encoding exactly when they differ in the sign of zeros only. */
  lemma {:induction false} SameEncodingIff(s: Schema, a: Message, b: Message)
    requires Typed(s, a) && Typed(s, b) && Numbered(s) && |Serialize(s, a)| <= MAX_LENGTH
    ensures Serialize(s, a) == Serialize(s, b) <==> Copy(s, a) == Copy(s, b)
  {
    if Serialize(s, a) == Serialize(s, b) {
      ClearedIsTyped(s);
      SerializedIsMerged(s, Cleared(s), a);
      SerializedIsMerged(s, Cleared(s), b);
    }
    CopySerializesAlike(s, a);
    CopySerializesAlike(s, b);
  }
}
