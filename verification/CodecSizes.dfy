/** Sizes: what `ByteSizeLong` computes before anything is written, and the cached sizes that the
    writers then rely on. */
module CodecSizes {
  import opened Octets
  import opened Wire
  import opened Schemas
  import opened CodecLaws

  function TagSize(number: nat): nat {
    VarintSize(Tag(number, 0))
  }

  /** The size of a packed list without its tag and length. */
  function IntsSize(s: seq<int>): nat {
    if s == [] then 0 else Int32Size(s[0]) + IntsSize(s[1..])
  }

  /** `ToCachedSize`, and the cast of a packed size: an int made of a size. */
  function Narrow(size: nat): (i: int)
    ensures IsInt32(i)
  {
    ToInt32(size)
  }

  function ValueSize(number: nat, k: Kind, v: Value): nat
    requires TypedValue(k, v)
    decreases k
  {
    match k
    case Int32 => if v.i != 0 then TagSize(number) + Int32Size(v.i) else 0
    case Text => if |v.b| > 0 then TagSize(number) + BlockSize(|v.b|) else 0
    case Double => if !IsZero(v.d) then TagSize(number) + 8 else 0
    case PackedInt32 =>
      var size := IntsSize(v.s);
      if size > 0 then TagSize(number) + Int32Size(Narrow(size)) + size else size
    case Messages(inner) => TagSize(number) * |v.ms| + SubsSize(inner, v.ms)
  }

  function SubsSize(s: Schema, ms: seq<Message>): nat
    requires AllTyped(s, ms)
    decreases s, 1, |ms|
  {
    if ms == [] then 0 else BlockSize(ByteSize(s, ms[0])) + SubsSize(s, ms[1..])
  }

  /** The fields from the one at index `k` on. */
  function SizeFrom(s: Schema, m: Message, k: nat): nat
    requires Typed(s, m) && k <= |s.kinds|
    decreases s, 0, |s.kinds| - k
  {
    if k == |s.kinds| then 0 else ValueSize(k + 1, s.kinds[k], m.values[k]) + SizeFrom(s, m, k + 1)
  }

  function ByteSize(s: Schema, m: Message): nat
    requires Typed(s, m)
    decreases s, 1, 0
  {
    SizeFrom(s, m, 0)
  }

  lemma {:induction false} TagSizeIsExact(number: nat, wire: nat)
    requires number < 0x2000_0000 && wire < 8
    ensures TagSize(number) == |Varint(Tag(number, wire))|
  {
    VarintSizeIsExact(8 * number);
    VarintLength(8 * number);
    VarintLength(8 * number + wire);
    LowBitsDoNotCount(number, wire);
  }

  lemma {:induction false} LowBitsDoNotCount(number: nat, wire: nat)
    requires wire < 8
    ensures |Varint(8 * number + wire)| == |Varint(8 * number)|
  {
    hide Varint;
    FirstOctet(8 * number);
    FirstOctet(8 * number + wire);
    SameOctet(number, wire);
  }

  lemma {:induction false} FirstOctet(v: nat)
    ensures |Varint(v)| == if v < 128 then 1 else 1 + |Varint(v / 128)|
  {
  }

  lemma {:induction false} SameOctet(number: nat, wire: nat)
    requires wire < 8
    ensures (8 * number + wire) / 128 == 8 * number / 128 && (8 * number + wire < 128 <==> 8 * number < 128)
  {
    assert 8 * number % 128 <= 120 by { assert 8 * number % 128 == 8 * (number % 16); }
  }

  /** The lengths of tags that the generated code writes as constants. */
  lemma {:induction false} TagSizes()
    ensures forall number :: 1 <= number < 16 ==> TagSize(number) == 1
    ensures forall number :: 16 <= number < 2048 ==> TagSize(number) == 2
  {
    forall number | 1 <= number < 2048 ensures TagSize(number) == if number < 16 then 1 else 2 {
      TagSizeIsExact(number, 0);
      assert 8 * number >= 128 ==> 8 * number / 128 < 128;
    }
  }

  lemma {:induction false} IntsSizeIsExact(s: seq<int>)
    requires forall i :: 0 <= i < |s| ==> IsInt32(s[i])
    ensures IntsSize(s) == |WriteInts(s)|
  {
    if s != [] {
      Int32SizeIsExact(s[0]);
      IntsSizeIsExact(s[1..]);
    }
  }

  lemma {:induction false} SmallSizes(n: nat)
    requires n <= MAX_LENGTH
    ensures Narrow(n) == n && Int32Size(n) == |Varint(n)| && BlockSize(n) == n + |Varint(n)|
  {
    VarintSizeIsExact(n);
    assert n % HALF_WORD == n;
  }

  lemma {:induction false} ValueSizeIsExact(number: nat, k: Kind, v: Value)
    requires 0 < number < 0x2000_0000 && TypedValue(k, v) && NumberedKind(k)
    requires |WriteValue(number, k, v)| <= MAX_LENGTH
    ensures ValueSize(number, k, v) == |WriteValue(number, k, v)|
    decreases k
  {
    match k
    case Int32 =>
      TagSizeIsExact(number, VARINT);
      Int32SizeIsExact(v.i);
    case Text =>
      TagSizeIsExact(number, DELIMITED);
      if v.b != [] { SmallSizes(|v.b|); }
    case Double =>
      TagSizeIsExact(number, FIXED64);
    case PackedInt32 =>
      TagSizeIsExact(number, DELIMITED);
      IntsSizeIsExact(v.s);
      if v.s != [] { SmallSizes(|WriteInts(v.s)|); }
    case Messages(inner) =>
      SubsSizeIsExact(number, inner, v.ms);
  }

  lemma {:induction false} SubsSizeIsExact(number: nat, s: Schema, ms: seq<Message>)
    requires number < 0x2000_0000 && AllTyped(s, ms) && Numbered(s) && |WriteSubs(number, s, ms)| <= MAX_LENGTH
    ensures TagSize(number) * |ms| + SubsSize(s, ms) == |WriteSubs(number, s, ms)|
    decreases s, 2, |ms|
  {
    if ms != [] {
      hide Varint, Serialize, ByteSize, VarintSize, BlockSize, TagSize, Typed, Numbered;
      PartsAreShorter(number, s, ms);
      ByteSizeIsExact(s, ms[0]);
      SmallSizes(|Serialize(s, ms[0])|);
      TagSizeIsExact(number, DELIMITED);
      SubsSizeIsExact(number, s, ms[1..]);
      Distribute(TagSize(number), |ms[1..]|);
    }
  }

  lemma {:induction false} Distribute(x: int, n: int)
    ensures x * (n + 1) == x + x * n
  {
  }

  /** The sizes of single fields, as the generated code adds them. */
  lemma {:induction false} NumSize(number: nat, i: Signed32)
    ensures ValueSize(number, Int32, Num(i)) == if i != 0 then TagSize(number) + Int32Size(i) else 0
  {
  }

  lemma {:induction false} BitsSize(number: nat, d: Word)
    ensures ValueSize(number, Double, Bits(d)) == if !IsZero(d) then TagSize(number) + 8 else 0
  {
  }

  lemma {:induction false} ListSize(number: nat, s: seq<Signed32>)
    ensures ValueSize(number, PackedInt32, Ints(s)) ==
      (if IntsSize(s) > 0 then TagSize(number) + Int32Size(Narrow(IntsSize(s))) else 0) + IntsSize(s)
  {
  }

  lemma {:induction false} TextSize(number: nat, b: Bytes)
    ensures ValueSize(number, Text, Str(b)) == if |b| > 0 then TagSize(number) + BlockSize(|b|) else 0
  {
  }

  lemma {:induction false} SizeFromIsExact(s: Schema, m: Message, k: nat)
    requires Typed(s, m) && Numbered(s) && k <= |s.kinds| && |WriteFrom(s, m, k)| <= MAX_LENGTH
    ensures SizeFrom(s, m, k) == |WriteFrom(s, m, k)|
    decreases s, 0, |s.kinds| - k
  {
    if k < |s.kinds| {
      hide WriteValue, ValueSize;
      assert NumberedKind(s.kinds[k]);
      ValueSizeIsExact(k + 1, s.kinds[k], m.values[k]);
      SizeFromIsExact(s, m, k + 1);
    }
  }

  /** The computed size is the number of octets that are then written. */
  lemma {:induction false} ByteSizeIsExact(s: Schema, m: Message)
    requires Typed(s, m) && Numbered(s) && |Serialize(s, m)| <= MAX_LENGTH
    ensures ByteSize(s, m) == |Serialize(s, m)|
    decreases s, 1
  {
    SizeFromIsExact(s, m, 0);
  }

  /** The size of a packed list, added up element by element. */
  method PackedSize(s: seq<Signed32>) returns (size: nat)
    ensures size == IntsSize(s)
  {
    size := 0;
    for i := 0 to |s|
      invariant size + IntsSize(s[i..]) == IntsSize(s)
    {
      assert s[i..][1..] == s[i + 1..];
      size := size + Int32Size(s[i]);
    }
  }

  // ---------------------------------------------------------------- cached sizes

  /** A packed list as it is written with the cached size `cached`.  A positive cached size for an
      empty list makes the C++ loop read past the list; this is not modelled. */
  function WritePacked(number: nat, s: seq<int>, cached: nat): Bytes
    requires forall i :: 0 <= i < |s| ==> IsInt32(s[i])
  {
    if cached == 0 then [] else Varint(Tag(number, DELIMITED)) + Varint(cached) + WriteInts(s)
  }

  lemma {:induction false} VarintIsInjective(a: nat, b: nat, x: Bytes, y: Bytes)
    requires a < WORD && b < WORD && Varint(a) + x == Varint(b) + y
    ensures a == b
  {
    Varint64RoundTrip(a, x);
    Varint64RoundTrip(b, y);
  }

  lemma {:induction false} VarintIsNotEmpty(n: nat)
    ensures Varint(n) != []
  {
  }

  lemma {:induction false} NoInts()
    ensures IntsSize([]) == 0
  {
  }

  /** The list is written right exactly when the cached size is that of the present list. */
  lemma {:induction false} CachedSizeMustBeCurrent(number: nat, s: seq<int>, cached: nat)
    requires number < 0x2000_0000 && forall i :: 0 <= i < |s| ==> IsInt32(s[i])
    requires cached < 0x8000_0000 && |WriteInts(s)| <= MAX_LENGTH
    ensures WritePacked(number, s, cached) == WriteValue(number, PackedInt32, Ints(s)) <==> cached == IntsSize(s)
  {
    hide Varint, WriteInts, IntsSize;
    IntsSizeIsExact(s);
    var tag, ints := Varint(Tag(number, DELIMITED)), WriteInts(s);
    NoInts();
    if s == [] {
      if cached != 0 { VarintIsNotEmpty(cached); }
      return;
    }
    assert WriteValue(number, PackedInt32, Ints(s)) == tag + (Varint(|ints|) + ints);
    if cached != 0 {
      assert WritePacked(number, s, cached) == tag + (Varint(cached) + ints);
      if tag + (Varint(cached) + ints) == tag + (Varint(|ints|) + ints) {
        assert (tag + (Varint(cached) + ints))[|tag|..] == Varint(cached) + ints;
        assert (tag + (Varint(|ints|) + ints))[|tag|..] == Varint(|ints|) + ints;
        VarintIsInjective(cached, |ints|, ints, ints);
      }
    }
  }

  lemma {:induction false} CurrentSizeWrites(number: nat, s: seq<int>, cached: int)
    requires forall i :: 0 <= i < |s| ==> IsInt32(s[i])
    requires cached == IntsSize(s)
    ensures cached > 0 <==> s != []
    ensures WritePacked(number, s, cached) == WriteValue(number, PackedInt32, Ints(s))
  {
    IntsSizeIsExact(s);
    var tag, ints := Varint(Tag(number, DELIMITED)), WriteInts(s);
    if s != [] {
      assert tag + Varint(cached) + ints == tag + (Varint(cached) + ints);
    }
  }
}
