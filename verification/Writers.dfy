/** The write functions that the generated serializers call, one field after the other. */
module Writers {
  import opened Octets
  import opened Wire
  import opened Schemas
  import opened CodecLaws
  import opened CodecSizes

  function WriteInt32(number: nat, value: Signed32, target: Bytes): Bytes {
    target + (Varint(Tag(number, VARINT)) + Varint(ToWord(value)))
  }

  function WriteBytes(number: nat, value: Bytes, target: Bytes): Bytes {
    target + (Varint(Tag(number, DELIMITED)) + Block(value))
  }

  function WriteDouble(number: nat, value: Word, target: Bytes): Bytes {
    target + (Varint(Tag(number, FIXED64)) + Little(value, 8))
  }

  function PackedList(number: nat, value: seq<Signed32>, byteSize: nat, target: Bytes): Bytes {
    target + WritePacked(number, value, byteSize)
  }

  method WriteInt32Packed(number: nat, value: seq<Signed32>, byteSize: nat, target: Bytes) returns (out: Bytes)
    requires byteSize > 0 && value != []
    ensures out == PackedList(number, value, byteSize, target)
  {
    hide Varint, ToWord;
    out := target + Varint(Tag(number, DELIMITED)) + Varint(byteSize);
    ghost var start := out;
    for i := 0 to |value|
      invariant out + WriteInts(value[i..]) == start + WriteInts(value)
    {
      assert value[i..][1..] == value[i + 1..];
      out := out + Varint(ToWord(value[i]));
    }
    assert value[|value|..] == [];
    assert out == out + WriteInts([]) == target + WritePacked(number, value, byteSize);
  }

  /** Of the encoding of `m`, appended to `target`, everything before the field at `k` is in `out`. */
  ghost predicate Written(s: Schema, m: Message, k: nat, target: Bytes, out: Bytes)
    requires Typed(s, m) && k <= |s.kinds|
  {
    out + WriteFrom(s, m, k) == target + Serialize(s, m)
  }

  lemma {:induction false} FieldWritten(s: Schema, m: Message, k: nat, target: Bytes, before: Bytes, out: Bytes)
    requires Typed(s, m) && k < |s.kinds| && Written(s, m, k, target, before)
    requires out == before + WriteValue(k + 1, s.kinds[k], m.values[k])
    ensures Written(s, m, k + 1, target, out)
  {
    hide WriteValue;
    var field, rest := WriteValue(k + 1, s.kinds[k], m.values[k]), WriteFrom(s, m, k + 1);
    assert before + (field + rest) == (before + field) + rest;
  }

  /** The same for each kind of field, with the test that skips it. */
  lemma {:induction false} NumWritten(s: Schema, m: Message, k: nat, i: Signed32, target: Bytes, before: Bytes,
        out: Bytes)
    requires Typed(s, m) && k < |s.kinds| && Written(s, m, k, target, before)
    requires s.kinds[k] == Int32 && m.values[k] == Num(i)
    requires out == if i != 0 then WriteInt32(k + 1, i, before) else before
    ensures Written(s, m, k + 1, target, out)
  {
    hide Written, Varint, ToWord;
    assert before + [] == before;
    FieldWritten(s, m, k, target, before, out);
  }

  lemma {:induction false} TextWritten(s: Schema, m: Message, k: nat, b: Bytes, target: Bytes, before: Bytes,
        out: Bytes)
    requires Typed(s, m) && k < |s.kinds| && Written(s, m, k, target, before)
    requires s.kinds[k] == Text && m.values[k] == Str(b)
    requires out == if |b| > 0 then WriteBytes(k + 1, b, before) else before
    ensures Written(s, m, k + 1, target, out)
  {
    hide Written, Varint, Block;
    assert before + [] == before;
    FieldWritten(s, m, k, target, before, out);
  }

  lemma {:induction false} BitsWritten(s: Schema, m: Message, k: nat, d: Word, target: Bytes, before: Bytes, out: Bytes)
    requires Typed(s, m) && k < |s.kinds| && Written(s, m, k, target, before)
    requires s.kinds[k] == Double && m.values[k] == Bits(d)
    requires out == if !IsZero(d) then WriteDouble(k + 1, d, before) else before
    ensures Written(s, m, k + 1, target, out)
  {
    hide Written, Varint, Little, IsZero;
    assert before + [] == before;
    FieldWritten(s, m, k, target, before, out);
  }

  lemma {:induction false} IntsWritten(s: Schema, m: Message, k: nat, list: seq<Signed32>, cached: int,
                                       target: Bytes, before: Bytes, out: Bytes)
    requires Typed(s, m) && k < |s.kinds| && Written(s, m, k, target, before)
    requires s.kinds[k] == PackedInt32 && m.values[k] == Ints(list) && cached == IntsSize(list)
    requires out == if cached > 0 then PackedList(k + 1, list, cached, before) else before
    ensures Written(s, m, k + 1, target, out)
  {
    hide Written, Varint, WritePacked, WriteInts;
    CurrentSizeWrites(k + 1, list, cached);
    assert before + [] == before;
    FieldWritten(s, m, k, target, before, out);
  }

  /** A nested message behind its cached size. */
  function WriteMessage(number: nat, cached: nat, body: Bytes, target: Bytes): Bytes {
    target + (Varint(Tag(number, DELIMITED)) + (Varint(cached) + body))
  }

  /** Of a list of nested messages, the first one is written when its cached size is current. */
  lemma {:induction false} SubWritten(number: nat, s: Schema, ms: seq<Message>, cached: int, before: Bytes)
    requires AllTyped(s, ms) && ms != [] && Numbered(s) && cached == Narrow(ByteSize(s, ms[0]))
    requires |WriteSubs(number, s, ms)| <= MAX_LENGTH
    ensures cached >= 0
    ensures WriteMessage(number, cached, Serialize(s, ms[0]), before) + WriteSubs(number, s, ms[1..])
      == before + WriteSubs(number, s, ms)
    ensures |WriteSubs(number, s, ms[1..])| <= MAX_LENGTH
  {
    hide Varint, Serialize, ByteSize, Numbered, Typed;
    PartsAreShorter(number, s, ms);
    ByteSizeIsExact(s, ms[0]);
    SmallSizes(|Serialize(s, ms[0])|);
    var tag, block, rest := Varint(Tag(number, DELIMITED)), Block(Serialize(s, ms[0])), WriteSubs(number, s, ms[1..]);
    assert (before + (tag + block)) + rest == before + (tag + block + rest);
  }

  lemma {:induction false} SubsWritten(s: Schema, m: Message, k: nat, target: Bytes, before: Bytes, out: Bytes)
    requires Typed(s, m) && k < |s.kinds| && Written(s, m, k, target, before)
    requires s.kinds[k].Messages? && m.values[k].Subs? && AllTyped(s.kinds[k].inner, m.values[k].ms)
    requires out == before + WriteSubs(k + 1, s.kinds[k].inner, m.values[k].ms)
    ensures Written(s, m, k + 1, target, out)
  {
    hide Written, WriteSubs;
    FieldWritten(s, m, k, target, before, out);
  }

  lemma {:induction false} AllWritten(s: Schema, m: Message, target: Bytes, out: Bytes)
    requires Typed(s, m)
    ensures Written(s, m, 0, target, target)
    ensures Written(s, m, |s.kinds|, target, out) ==> out == target + Serialize(s, m)
  {
    assert out + [] == out;
  }
}
