/** What the generated message classes have in common.  A message type is the list of its field
    types; the fields of the three modelled types are numbered from 1 without gaps.  The functions
    below say what clearing, merging, serializing, sizing and parsing mean for any such type. */
module Schemas {
  import opened Octets
  import opened Options
  import opened Wire

  /** Enum fields are read and written like int32 fields. */
  datatype Kind = Int32 | Text | Double | PackedInt32 | Messages(inner: Schema)

  datatype Schema = Schema(kinds: seq<Kind>)

  /** A double is kept as its 64 bits. */
  datatype Value = Num(i: int) | Str(b: Bytes) | Bits(d: nat) | Ints(s: seq<int>) | Subs(ms: seq<Message>)

  datatype Message = Message(values: seq<Value>)

  /** Low bits of the tag. */
  const VARINT := 0
  const FIXED64 := 1
  const DELIMITED := 2

  const MINUS_ZERO := 0x8000_0000_0000_0000

  /** The test `d <= 0 && d >= 0`: both zeros pass it, no other bit pattern does. */
  predicate IsZero(d: nat) { d == 0 || d == MINUS_ZERO }

  // ---------------------------------------------------------------- values

  predicate Typed(s: Schema, m: Message)
    decreases s, 0
  {
    |m.values| == |s.kinds| && forall k :: 0 <= k < |s.kinds| ==> TypedValue(s.kinds[k], m.values[k])
  }

  predicate TypedValue(k: Kind, v: Value)
    decreases k
  {
    match k
    case Int32 => v.Num? && IsInt32(v.i)
    case Text => v.Str?
    case Double => v.Bits? && v.d < WORD
    case PackedInt32 => v.Ints? && forall i :: 0 <= i < |v.s| ==> IsInt32(v.s[i])
    case Messages(inner) => v.Subs? && AllTyped(inner, v.ms)
  }

  predicate AllTyped(s: Schema, ms: seq<Message>)
    decreases s, 1, |ms|
  {
    ms == [] || (Typed(s, ms[0]) && AllTyped(s, ms[1..]))
  }

  function DefaultValue(k: Kind): Value {
    match k
    case Int32 => Num(0)
    case Text => Str([])
    case Double => Bits(0)
    case PackedInt32 => Ints([])
    case Messages(_) => Subs([])
  }

  /** A cleared message. */
  function Cleared(s: Schema): Message {
    Message(seq(|s.kinds|, k requires 0 <= k < |s.kinds| => DefaultValue(s.kinds[k])))
  }

  lemma {:induction false} ClearedIsTyped(s: Schema)
    ensures Typed(s, Cleared(s))
  {
  }

  // ---------------------------------------------------------------- merging

  /** Scalars and strings are taken over unless they are zero or empty; lists are appended. */
  function MergeValue(k: Kind, v: Value, w: Value): Value
    requires TypedValue(k, v) && TypedValue(k, w)
    decreases k
  {
    match k
    case Int32 => if w.i != 0 then w else v
    case Text => if |w.b| > 0 then w else v
    case Double => if IsZero(w.d) then v else w
    case PackedInt32 => Ints(v.s + w.s)
    case Messages(inner) => Subs(v.ms + Copies(inner, w.ms))
  }

  /** Merging `n` into `m`. */
  function Merge(s: Schema, m: Message, n: Message): Message
    requires Typed(s, m) && Typed(s, n)
    decreases s, 0
  {
    Message(seq(|s.kinds|, k requires 0 <= k < |s.kinds| => MergeValue(s.kinds[k], m.values[k], n.values[k])))
  }

  /** Appended messages are made by merging into cleared ones. */
  function Copies(s: Schema, ms: seq<Message>): seq<Message>
    requires AllTyped(s, ms)
    decreases s, 1, |ms|
  {
    if ms == [] then [] else
      ClearedIsTyped(s);
      [Merge(s, Cleared(s), ms[0])] + Copies(s, ms[1..])
  }

  // ---------------------------------------------------------------- serializing

  function Tag(number: nat, wire: nat): nat { 8 * number + wire }

  function WriteValue(number: nat, k: Kind, v: Value): Bytes
    requires TypedValue(k, v)
    decreases k
  {
    match k
    case Int32 => if v.i == 0 then [] else Varint(Tag(number, VARINT)) + Varint(ToWord(v.i))
    case Text => if v.b == [] then [] else Varint(Tag(number, DELIMITED)) + Block(v.b)
    case Double => if IsZero(v.d) then [] else Varint(Tag(number, FIXED64)) + Little(v.d, 8)
    case PackedInt32 => if v.s == [] then [] else Varint(Tag(number, DELIMITED)) + Block(WriteInts(v.s))
    case Messages(inner) => WriteSubs(number, inner, v.ms)
  }

  function WriteInts(s: seq<int>): (b: Bytes)
    requires forall i :: 0 <= i < |s| ==> IsInt32(s[i])
    ensures s != [] ==> b != []
  {
    if s == [] then [] else Varint(ToWord(s[0])) + WriteInts(s[1..])
  }

  function WriteSubs(number: nat, s: Schema, ms: seq<Message>): Bytes
    requires AllTyped(s, ms)
    decreases s, 1, |ms|
  {
    if ms == [] then []
    else Varint(Tag(number, DELIMITED)) + Block(Serialize(s, ms[0])) + WriteSubs(number, s, ms[1..])
  }

  /** The fields from the one at index `k` on, in the order of their numbers. */
  function WriteFrom(s: Schema, m: Message, k: nat): Bytes
    requires Typed(s, m) && k <= |s.kinds|
    decreases s, 0, |s.kinds| - k
  {
    if k == |s.kinds| then [] else WriteValue(k + 1, s.kinds[k], m.values[k]) + WriteFrom(s, m, k + 1)
  }

  function Serialize(s: Schema, m: Message): Bytes
    requires Typed(s, m)
    decreases s, 1, 0
  {
    WriteFrom(s, m, 0)
  }

  // ---------------------------------------------------------------- parsing

  /** `Foreign` is a field outside the schema: what the library does with it is not modelled. */
  datatype Outcome<+T> = Done(value: T) | Malformed | Foreign

  /** The tag announces a field of this kind.  Lists of numbers may also come one by one. */
  predicate Fits(k: Kind, wire: nat) {
    match k
    case Int32 => wire == VARINT
    case Text => wire == DELIMITED
    case Double => wire == FIXED64
    case PackedInt32 => wire == DELIMITED || wire == VARINT
    case Messages(_) => wire == DELIMITED
  }

  function ReadInts(b: Bytes): Option<seq<int>>
    decreases |b|
  {
    if b == [] then Some([]) else
      var first := ReadVarint64(b);
      if first.None? then None else
        var more := ReadInts(first.value.1);
        if more.None? then None else Some([ToInt32(first.value.0)] + more.value)
  }


  /** The value behind a tag, put together with the present value `v` of the field, and the rest
      of the input. */
  function ReadValue(k: Kind, wire: nat, v: Value, b: Bytes): (r: Outcome<(Value, Bytes)>)
    requires TypedValue(k, v) && Fits(k, wire)
    ensures r.Done? ==> |r.value.1| < |b| && TypedValue(k, r.value.0)
    decreases k
  {
    match k
    case Int32 =>
      var n := ReadVarint64(b);
      if n.None? then Malformed else Done((Num(ToInt32(n.value.0)), n.value.1))
    case Text =>
      var t := ReadBlock(b);
      if t.None? then Malformed else Done((Str(t.value.0), t.value.1))
    case Double =>
      if |b| < 8 then Malformed else
        EightOctets(b[..8]);
        Done((Bits(FromLittle(b[..8])), b[8..]))
    case PackedInt32 =>
      if wire == VARINT then
        var n := ReadVarint64(b);
        if n.None? then Malformed else Done((Ints(v.s + [ToInt32(n.value.0)]), n.value.1))
      else
        var t := ReadBlock(b);
        if t.None? then Malformed else
          var ints := ReadInts(t.value.0);
          if ints.None? then Malformed else
            ReadIntsAreInt32(t.value.0);
            Done((Ints(v.s + ints.value), t.value.1))
    case Messages(inner) =>
      var t := ReadBlock(b);
      if t.None? then Malformed else
        ClearedIsTyped(inner);
        match Parse(inner, Cleared(inner), t.value.0)
        case Malformed => Malformed
        case Foreign => Foreign
        case Done(sub) =>
          AllTypedAppend(inner, v.ms, sub);
          Done((Subs(v.ms + [sub]), t.value.1))
  }

  lemma {:induction false} EightOctets(b: Bytes)
    requires |b| == 8
    ensures FromLittle(b) < WORD
  {
    FromLittleIsSmall(b);
    assert Power(256, 2) == 0x1_0000;
    PowerOfSum(256, 2, 2);
    PowerOfSum(256, 4, 4);
  }

  lemma {:induction false} ReadIntsAreInt32(b: Bytes)
    requires ReadInts(b).Some?
    ensures forall i :: 0 <= i < |ReadInts(b).value| ==> IsInt32(ReadInts(b).value[i])
    decreases |b|
  {
    if b != [] {
      ReadIntsAreInt32(ReadVarint64(b).value.1);
    }
  }

  lemma {:induction false} AllTypedAppend(s: Schema, ms: seq<Message>, m: Message)
    requires AllTyped(s, ms) && Typed(s, m)
    ensures AllTyped(s, ms + [m])
    decreases |ms|
  {
    if ms == [] {
      assert [m][1..] == [];
    } else {
      AllTypedAppend(s, ms[1..], m);
      assert (ms + [m])[1..] == ms[1..] + [m];
    }
  }

  function Put(m: Message, k: nat, v: Value): Message
    requires k < |m.values|
  {
    Message(m.values[k := v])
  }

  /** An end of a group, field number zero, and the two wire types that do not exist. */
  predicate Refused(tag: nat) {
    tag % 8 == 4 || tag / 8 == 0 || tag % 8 > 5
  }

  /** Parsing `b` into a message that already holds `m`. */
  function Parse(s: Schema, m: Message, b: Bytes): (r: Outcome<Message>)
    requires Typed(s, m)
    ensures r.Done? ==> Typed(s, r.value)
    decreases s, |b|
  {
    if b == [] then Done(m) else
      var t := ReadTag(b);
      if t.None? then Malformed else
        var (tag, rest) := t.value;
        var k, wire := tag / 8 - 1, tag % 8;
        if 0 <= k < |s.kinds| && Fits(s.kinds[k], wire) then
          match ReadValue(s.kinds[k], wire, m.values[k], rest)
          case Malformed => Malformed
          case Foreign => Foreign
          case Done((v, rest')) => Parse(s, Put(m, k, v), rest')
        else if Refused(tag) then Malformed else Foreign
  }

  // ---------------------------------------------------------------- for the classes

  /** The types of the fields of the classes. */
  type Signed32 = i: int | IsInt32(i)
  type Word = d: nat | d < WORD

  /** How a parse ended. */
  datatype Status = Accepted | Rejected | Unmodelled

  function StatusOf(o: Outcome<Message>): Status {
    match o case Done(_) => Accepted case Malformed => Rejected case Foreign => Unmodelled
  }

  /** What remains of the parse when the field has been given its value. */
  ghost predicate RestAfter(s: Schema, m: Message, b: Bytes, k: nat, v: Value, rest: Bytes)
    requires Typed(s, m) && k < |s.kinds|
  {
    TypedValue(s.kinds[k], v) && Parse(s, m, b) == Parse(s, Put(m, k, v), rest) && |rest| < |b|
  }

  /** One round of the parse loop. */
  lemma {:induction false} Round(s: Schema, m: Message, b: Bytes, k: nat, wire: nat)
    requires Typed(s, m) && k < |s.kinds| && wire < 8 && Fits(s.kinds[k], wire)
    requires ReadTag(b).Some? && ReadTag(b).value.0 == Tag(k + 1, wire)
    ensures match ReadValue(s.kinds[k], wire, m.values[k], ReadTag(b).value.1)
      case Malformed => Parse(s, m, b).Malformed?
      case Foreign => Parse(s, m, b).Foreign?
      case Done((v, rest)) => RestAfter(s, m, b, k, v, rest)
  {
    hide ReadValue, ReadTag, TypedValue, Fits;
  }

  /** The same for each kind of field. */
  lemma {:induction false} NumRound(s: Schema, m: Message, b: Bytes, k: nat)
    requires Typed(s, m) && k < |s.kinds| && s.kinds[k] == Int32
    requires ReadTag(b).Some? && ReadTag(b).value.0 == Tag(k + 1, VARINT)
    ensures var n := ReadVarint64(ReadTag(b).value.1);
      if n.None? then Parse(s, m, b).Malformed?
      else RestAfter(s, m, b, k, Num(ToInt32(n.value.0)), n.value.1)
  {
    hide Parse, ReadTag, RestAfter;
    Round(s, m, b, k, VARINT);
  }

  lemma {:induction false} TextRound(s: Schema, m: Message, b: Bytes, k: nat)
    requires Typed(s, m) && k < |s.kinds| && s.kinds[k] == Text
    requires ReadTag(b).Some? && ReadTag(b).value.0 == Tag(k + 1, DELIMITED)
    ensures var t := ReadBlock(ReadTag(b).value.1);
      if t.None? then Parse(s, m, b).Malformed?
      else RestAfter(s, m, b, k, Str(t.value.0), t.value.1)
  {
    hide Parse, ReadTag, RestAfter;
    Round(s, m, b, k, DELIMITED);
  }

  lemma {:induction false} BitsRound(s: Schema, m: Message, b: Bytes, k: nat)
    requires Typed(s, m) && k < |s.kinds| && s.kinds[k] == Double
    requires ReadTag(b).Some? && ReadTag(b).value.0 == Tag(k + 1, FIXED64)
    ensures var rest := ReadTag(b).value.1;
      if |rest| < 8 then Parse(s, m, b).Malformed?
      else RestAfter(s, m, b, k, Bits(FromLittle(rest[..8])), rest[8..])
  {
    hide Parse, ReadTag, RestAfter;
    Round(s, m, b, k, FIXED64);
  }

  lemma {:induction false} IntsRound(s: Schema, m: Message, b: Bytes, k: nat)
    requires Typed(s, m) && k < |s.kinds| && s.kinds[k] == PackedInt32 && m.values[k].Ints?
    requires ReadTag(b).Some? && ReadTag(b).value.0 == Tag(k + 1, DELIMITED)
    ensures var t := ReadBlock(ReadTag(b).value.1);
      if t.None? || ReadInts(t.value.0).None? then Parse(s, m, b).Malformed?
      else RestAfter(s, m, b, k, Ints(m.values[k].s + ReadInts(t.value.0).value), t.value.1)
  {
    hide Parse, ReadTag, RestAfter;
    Round(s, m, b, k, DELIMITED);
  }

  lemma {:induction false} SingleRound(s: Schema, m: Message, b: Bytes, k: nat)
    requires Typed(s, m) && k < |s.kinds| && s.kinds[k] == PackedInt32 && m.values[k].Ints?
    requires ReadTag(b).Some? && ReadTag(b).value.0 == Tag(k + 1, VARINT)
    ensures var n := ReadVarint64(ReadTag(b).value.1);
      if n.None? then Parse(s, m, b).Malformed?
      else RestAfter(s, m, b, k, Ints(m.values[k].s + [ToInt32(n.value.0)]), n.value.1)
  {
    hide Parse, ReadTag, RestAfter;
    Round(s, m, b, k, VARINT);
  }

  lemma {:induction false} SubRound(s: Schema, m: Message, b: Bytes, k: nat)
    requires Typed(s, m) && k < |s.kinds| && s.kinds[k].Messages? && m.values[k].Subs?
    requires ReadTag(b).Some? && ReadTag(b).value.0 == Tag(k + 1, DELIMITED)
    requires Typed(s.kinds[k].inner, Cleared(s.kinds[k].inner))
    ensures var t := ReadBlock(ReadTag(b).value.1);
      if t.None? then Parse(s, m, b).Malformed?
      else match Parse(s.kinds[k].inner, Cleared(s.kinds[k].inner), t.value.0)
        case Malformed => Parse(s, m, b).Malformed?
        case Foreign => Parse(s, m, b).Foreign?
        case Done(sub) => RestAfter(s, m, b, k, Subs(m.values[k].ms + [sub]), t.value.1)
  {
    hide Parse, ReadTag, RestAfter;
    Round(s, m, b, k, DELIMITED);
  }

  lemma {:induction false} EmptyRound(s: Schema, m: Message, b: Bytes)
    requires Typed(s, m)
    ensures b == [] ==> Parse(s, m, b) == Done(m)
    ensures b != [] && ReadTag(b).None? ==> Parse(s, m, b).Malformed?
  {
  }

  /** A tag that no field of the schema takes ends the modelled part of the parse. */
  lemma {:induction false} UnusualRound(s: Schema, m: Message, b: Bytes)
    requires Typed(s, m) && b != [] && ReadTag(b).Some?
    requires var tag := ReadTag(b).value.0;
      0 < tag / 8 <= |s.kinds| ==> !Fits(s.kinds[tag / 8 - 1], tag % 8)
    ensures var tag := ReadTag(b).value.0;
      if Refused(tag) then Parse(s, m, b).Malformed? else Parse(s, m, b).Foreign?
  {
  }

  /** A single octet, for any message type: 0 to 7 (field number zero), and of field 1 the end of a
      group and the wire types 6 and 7 are refused. */
  lemma {:induction false} RefusedOctets(s: Schema, m: Message, octet: Octet)
    requires Typed(s, m) && (octet < 8 || octet == 12 || octet == 14 || octet == 15)
    ensures Parse(s, m, [octet]).Malformed?
  {
    ShortTag([octet]);
  }
}
