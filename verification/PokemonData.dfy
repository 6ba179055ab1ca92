/** The generated class UserPokemonDataResponseInfo, with its list of nested PokemonInfo messages. */
module PokemonData {
  import opened Octets
  import opened Options
  import opened Wire
  import opened Schemas
  import opened CodecLaws
  import opened CodecSizes
  import opened Writers

  /** PokemonInfo: twenty fields, the last five with tags of two octets. */
  const POKEMON := Schema([
    Int32, Int32, Text, Int32, Int32, Int32, Int32, Int32, Int32, Int32, Int32,
    Text, Text, Text, Text, Text, Text, Text, Text, Text])

  const POKEMON_DATA := Schema([Text, Int32, Messages(POKEMON)])

  function Pack(userName: Bytes, mode: Signed32, pkmData: seq<Message>): Message {
    Message([Str(userName), Num(mode), Subs(pkmData)])
  }

  lemma {:induction false} PackIsTyped(userName: Bytes, mode: Signed32, pkmData: seq<Message>)
    requires AllTyped(POKEMON, pkmData)
    ensures Typed(POKEMON_DATA, Pack(userName, mode, pkmData))
  {
  }

  lemma {:induction false} PackMerges(u: Bytes, n: Signed32, p: seq<Message>, u': Bytes, n': Signed32, p': seq<Message>)
    requires AllTyped(POKEMON, p) && AllTyped(POKEMON, p')
    ensures Typed(POKEMON_DATA, Pack(u, n, p)) && Typed(POKEMON_DATA, Pack(u', n', p'))
    ensures Merge(POKEMON_DATA, Pack(u, n, p), Pack(u', n', p')) ==
      Pack(if |u'| > 0 then u' else u, if n' != 0 then n' else n, p + Copies(POKEMON, p'))
  {
    hide AllTyped, Copies;
    PackIsTyped(u, n, p);
    PackIsTyped(u', n', p');
  }

  lemma {:induction false} PackSize(u: Bytes, n: Signed32, p: seq<Message>)
    requires AllTyped(POKEMON, p)
    ensures Typed(POKEMON_DATA, Pack(u, n, p))
    ensures ByteSize(POKEMON_DATA, Pack(u, n, p)) ==
      ValueSize(1, Text, Str(u)) + ValueSize(2, Int32, Num(n)) + |p| + SubsSize(POKEMON, p)
  {
    hide AllTyped, SubsSize;
    PackIsTyped(u, n, p);
    TagSizes();
    var m := Pack(u, n, p);
    assert ValueSize(3, Messages(POKEMON), Subs(p)) == |p| + SubsSize(POKEMON, p);
    hide ValueSize;
    assert SizeFrom(POKEMON_DATA, m, 2) == ValueSize(3, Messages(POKEMON), Subs(p));
    assert SizeFrom(POKEMON_DATA, m, 1) == ValueSize(2, Int32, Num(n)) + SizeFrom(POKEMON_DATA, m, 2);
  }

  lemma {:induction false} PackPuts(u: Bytes, n: Signed32, p: seq<Message>, v: Bytes, x: Signed32, q: seq<Message>)
    ensures Put(Pack(u, n, p), 0, Str(v)) == Pack(v, n, p)
    ensures Put(Pack(u, n, p), 1, Num(x)) == Pack(u, x, p)
    ensures Put(Pack(u, n, p), 2, Subs(q)) == Pack(u, n, q)
  {
  }

  lemma {:induction false} SchemasAreNumbered()
    ensures Numbered(POKEMON) && Numbered(POKEMON_DATA)
  {
  }

  lemma {:induction false} PackValues(u: Bytes, n: Signed32, p: seq<Message>)
    ensures Pack(u, n, p).values == [Str(u), Num(n), Subs(p)]
  {
  }

  /** The sizes of the elements, as `ByteSizeLong` leaves them in the elements. */
  function Sizes(ms: seq<Message>): (sizes: seq<int>)
    requires AllTyped(POKEMON, ms)
    ensures |sizes| == |ms|
  {
    if ms == [] then [] else [Narrow(ByteSize(POKEMON, ms[0]))] + Sizes(ms[1..])
  }

  lemma {:induction false} AllTypedAt(s: Schema, ms: seq<Message>, i: nat)
    requires AllTyped(s, ms) && i <= |ms|
    ensures AllTyped(s, ms[i..])
    ensures i < |ms| ==> Typed(s, ms[i])
  {
    if i > 0 {
      AllTypedAt(s, ms[1..], i - 1);
      assert ms[1..][i - 1..] == ms[i..];
    }
  }

  /** The elements of `list` from `i` on are still to be copied. */
  ghost predicate Joined(now: seq<Message>, list: seq<Message>, i: nat, before: seq<Message>)
    requires i <= |list|
  {
    && AllTyped(POKEMON, list) && AllTyped(POKEMON, list[i..])
    && now + Copies(POKEMON, list[i..]) == before + Copies(POKEMON, list)
  }

  lemma {:induction false} JoinDone(now: seq<Message>, list: seq<Message>, before: seq<Message>)
    requires Joined(now, list, |list|, before)
    ensures now == before + Copies(POKEMON, list)
  {
    assert now + [] == now;
  }

  lemma {:induction false} JoinOne(now: seq<Message>, list: seq<Message>, i: nat, before: seq<Message>)
    requires i < |list| && Joined(now, list, i, before) && AllTyped(POKEMON, now)
    ensures Typed(POKEMON, list[i]) && Typed(POKEMON, Cleared(POKEMON))
    ensures var now' := now + [Merge(POKEMON, Cleared(POKEMON), list[i])];
      Joined(now', list, i + 1, before) && AllTyped(POKEMON, now')
  {
    hide Merge, Typed, Cleared;
    ClearedIsTyped(POKEMON);
    AllTypedAt(POKEMON, list, i);
    AllTypedAt(POKEMON, list, i + 1);
    MergeIsTyped(POKEMON, Cleared(POKEMON), list[i]);
    var copy := Merge(POKEMON, Cleared(POKEMON), list[i]);
    AllTypedAppend(POKEMON, now, copy);
    assert list[i..][1..] == list[i + 1..];
    assert now + Copies(POKEMON, list[i..]) == (now + [copy]) + Copies(POKEMON, list[i + 1..]);
  }

  class UserPokemonDataResponseInfo {
    var userName: Bytes
    var mode: Signed32
    var pkmData: seq<Message>
    /** The cached sizes of the elements. */
    var pkmCachedSizes: seq<int>
    var cachedSize: Signed32

    constructor ()
      ensures Valid() && Value() == Cleared(POKEMON_DATA)
    {
      userName, mode, pkmData, pkmCachedSizes, cachedSize := [], 0, [], [], 0;
    }

    ghost predicate Valid()
      reads this
    {
      AllTyped(POKEMON, pkmData) && |pkmCachedSizes| == |pkmData|
    }

    function Value(): (m: Message)
      requires Valid()
      reads this
      ensures Typed(POKEMON_DATA, m)
    {
      PackIsTyped(userName, mode, pkmData);
      Pack(userName, mode, pkmData)
    }

    method Clear()
      modifies this
      ensures Valid() && Value() == Cleared(POKEMON_DATA)
    {
      pkmData, pkmCachedSizes := [], [];
      userName := [];
      mode := 0;
    }

    method MergeFrom(from: UserPokemonDataResponseInfo)
      requires Valid() && from.Valid() && from != this
      modifies this
      ensures Valid() && Value() == Merge(POKEMON_DATA, old(Value()), old(from.Value()))
    {
      hide AllTyped, Merge, Typed, Pack;
      PackMerges(userName, mode, pkmData, from.userName, from.mode, from.pkmData);
      ghost var before := pkmData;
      ClearedIsTyped(POKEMON);
      for i := 0 to |from.pkmData|
        invariant Valid() && userName == old(userName) && mode == old(mode)
        invariant Joined(pkmData, from.pkmData, i, before)
      {
        AllTypedAt(POKEMON, from.pkmData, i);
        var element := from.pkmData[i];
        JoinOne(pkmData, from.pkmData, i, before);
        pkmData := pkmData + [Merge(POKEMON, Cleared(POKEMON), element)];
        pkmCachedSizes := pkmCachedSizes + [0];
      }
      JoinDone(pkmData, from.pkmData, before);
      if |from.userName| > 0 { userName := from.userName; }
      if from.mode != 0 { mode := from.mode; }
    }

    method ByteSizeLong() returns (totalSize: nat)
      requires Valid()
      modifies this`pkmCachedSizes, this`cachedSize
      ensures Valid() && totalSize == ByteSize(POKEMON_DATA, Value())
      ensures pkmCachedSizes == Sizes(pkmData) && cachedSize == Narrow(totalSize)
    {
      hide AllTyped, Typed, Pack, ByteSize, Int32Size, BlockSize, Narrow;
      PackSize(userName, mode, pkmData);
      TagSizes();
      totalSize := |pkmData|;
      pkmCachedSizes := [];
      ghost var total := totalSize + SubsSize(POKEMON, pkmData);
      for i := 0 to |pkmData|
        invariant Summed(totalSize, pkmCachedSizes, pkmData, i, total)
      {
        AllTypedAt(POKEMON, pkmData, i);
        SumOne(totalSize, pkmCachedSizes, pkmData, i, total);
        var size := ByteSize(POKEMON, pkmData[i]);
        pkmCachedSizes := pkmCachedSizes + [Narrow(size)];
        totalSize := totalSize + BlockSize(size);
      }
      assert pkmCachedSizes + [] == pkmCachedSizes;
      if |userName| > 0 { totalSize := totalSize + 1 + BlockSize(|userName|); }
      assert totalSize == total + ValueSize(1, Text, Str(userName));
      if mode != 0 { totalSize := totalSize + 1 + Int32Size(mode); }
      assert totalSize == total + ValueSize(1, Text, Str(userName)) + ValueSize(2, Int32, Num(mode));
      cachedSize := Narrow(totalSize);
    }

    method InternalSerialize(target: Bytes) returns (out: Bytes)
      requires Valid() && pkmCachedSizes == Sizes(pkmData)
      requires |Serialize(POKEMON_DATA, Value())| <= MAX_LENGTH
      ensures out == target + Serialize(POKEMON_DATA, Value())
    {
      hide AllTyped, Typed, Serialize, Written, WriteInt32, WriteBytes, WriteMessage, WriteSubs, ElementsWritten,
        Pack;
      ghost var m := Value();
      PackValues(userName, mode, pkmData);
      AllWritten(POKEMON_DATA, m, target, target);
      out := target;
      ghost var before := out;
      if |userName| > 0 { out := WriteBytes(1, userName, out); }
      TextWritten(POKEMON_DATA, m, 0, userName, target, before, out);
      before := out;
      if mode != 0 { out := WriteInt32(2, mode, out); }
      NumWritten(POKEMON_DATA, m, 1, mode, target, before, out);
      before := out;
      SubsAreShort(userName, mode, pkmData);
      NoneWritten(pkmData, before);
      for i := 0 to |pkmData|
        invariant ElementsWritten(out, pkmData, i, before)
      {
        AllTypedAt(POKEMON, pkmData, i);
        WriteOne(out, pkmData, i, before);
        out := WriteMessage(3, pkmCachedSizes[i], Serialize(POKEMON, pkmData[i]), out);
      }
      ElementsDone(out, pkmData, before);
      SubsWritten(POKEMON_DATA, m, 2, target, before, out);
      AllWritten(POKEMON_DATA, m, target, out);
    }

    /** Sizes first, then the octets: the cached sizes of the elements are current when they are
        needed. */
    method SerializeAsString() returns (out: Bytes)
      requires Valid() && |Serialize(POKEMON_DATA, Value())| <= MAX_LENGTH
      modifies this`pkmCachedSizes, this`cachedSize
      ensures Valid() && Value() == old(Value())
      ensures out == Serialize(POKEMON_DATA, Value()) && |out| == cachedSize
    {
      hide Pack, Serialize, ByteSize, Typed, Narrow, AllTyped;
      SchemasAreNumbered();
      ByteSizeIsExact(POKEMON_DATA, Value());
      var size := ByteSizeLong();
      SmallSizes(size);
      out := InternalSerialize([]);
      assert [] + Serialize(POKEMON_DATA, Value()) == Serialize(POKEMON_DATA, Value());
    }

    method InternalParse(ptr: Bytes) returns (end: Status)
      requires Valid()
      modifies this`userName, this`mode, this`pkmData, this`pkmCachedSizes
      ensures Valid()
      ensures end == StatusOf(Parse(POKEMON_DATA, old(Value()), ptr))
      ensures end.Accepted? ==> Parse(POKEMON_DATA, old(Value()), ptr) == Done(Value())
    {
      hide Parse, Pack, AllTyped, Typed, TypedValue, ReadTag, ReadVarint64, ReadBlock, Put, ToInt32, Refused, Cleared;
      var p := ptr;
      while p != []
        invariant Valid()
        invariant Parse(POKEMON_DATA, old(Value()), ptr) == Parse(POKEMON_DATA, Value(), p)
        decreases |p|
      {
        ghost var m, b := Value(), p;
        PackValues(userName, mode, pkmData);
        EmptyRound(POKEMON_DATA, m, b);
        var t := ReadTag(p);
        if t.None? {
          return Rejected;
        }
        var (tag, rest) := t.value;
        if tag / 8 == 1 && tag % 256 == 10 {
          TextRound(POKEMON_DATA, m, b, 0);
          var str := ReadBlock(rest);
          if str.None? { return Rejected; }
          PackPuts(userName, mode, pkmData, str.value.0, mode, pkmData);
          userName, p := str.value.0, str.value.1;
        } else if tag / 8 == 2 && tag % 256 == 16 {
          NumRound(POKEMON_DATA, m, b, 1);
          var val := ReadVarint64(rest);
          if val.None? { return Rejected; }
          PackPuts(userName, mode, pkmData, userName, ToInt32(val.value.0), pkmData);
          mode, p := ToInt32(val.value.0), val.value.1;
        } else if tag / 8 == 3 && tag % 256 == 26 {
          var status;
          status, p := ParseElements(p, rest);
          if status != Accepted { return status; }
        } else {
          UnusualRound(POKEMON_DATA, m, b);
          return if Refused(tag) then Rejected else Unmodelled;
        }
      }
      EmptyRound(POKEMON_DATA, Value(), p);
      end := Accepted;
    }

    /** The inner loop: elements that follow each other are read without going back to the tag
        switch, by comparing one octet. */
    method ParseElements(ptr: Bytes, first: Bytes) returns (status: Status, p: Bytes)
      requires Valid() && ReadTag(ptr) == Some((26, first))
      modifies this`pkmData, this`pkmCachedSizes
      ensures Valid()
      ensures status.Accepted? ==> |p| < |ptr|
      ensures status.Accepted? ==> Parse(POKEMON_DATA, old(Value()), ptr) == Parse(POKEMON_DATA, Value(), p)
      ensures !status.Accepted? ==> status == StatusOf(Parse(POKEMON_DATA, old(Value()), ptr))
    {
      hide Parse, Pack, AllTyped, Typed, TypedValue, ReadTag, ReadBlock, Put, Cleared;
      var rest, more := first, true;
      ghost var b := ptr;
      p := ptr;
      while more
        invariant Valid()
        invariant more ==> ReadTag(b) == Some((26, rest)) && |b| <= |ptr|
        invariant !more ==> |p| < |ptr|
        invariant Parse(POKEMON_DATA, old(Value()), ptr) == Parse(POKEMON_DATA, Value(), if more then b else p)
        decreases more, |rest|
      {
        ClearedIsTyped(POKEMON);
        PackValues(userName, mode, pkmData);
        SubRound(POKEMON_DATA, Value(), b, 2);
        var block := ReadBlock(rest);
        if block.None? { return Rejected, p; }
        var sub := Parse(POKEMON, Cleared(POKEMON), block.value.0);
        if !sub.Done? { return StatusOf(sub), p; }
        AllTypedAppend(POKEMON, pkmData, sub.value);
        PackPuts(userName, mode, pkmData, userName, mode, pkmData + [sub.value]);
        pkmData, pkmCachedSizes := pkmData + [sub.value], pkmCachedSizes + [0];
        p := block.value.1;
        more := p != [] && p[0] == 26;
        if more {
          ShortTag(p);
          b, rest := p, p[1..];
        }
      }
      status := Accepted;
    }
  }

  /** The sizes of the elements from `i` on are still to be added up and cached. */
  ghost predicate Summed(size: nat, cached: seq<int>, ms: seq<Message>, i: nat, total: nat)
    requires i <= |ms|
  {
    && AllTyped(POKEMON, ms) && AllTyped(POKEMON, ms[i..])
    && size + SubsSize(POKEMON, ms[i..]) == total
    && cached + Sizes(ms[i..]) == Sizes(ms)
  }

  lemma {:induction false} SumOne(size: nat, cached: seq<int>, ms: seq<Message>, i: nat, total: nat)
    requires i < |ms| && Summed(size, cached, ms, i, total)
    ensures Typed(POKEMON, ms[i])
    ensures var n := ByteSize(POKEMON, ms[i]);
      Summed(size + BlockSize(n), cached + [Narrow(n)], ms, i + 1, total)
  {
    hide ByteSize, BlockSize, Typed, Narrow;
    AllTypedAt(POKEMON, ms, i);
    AllTypedAt(POKEMON, ms, i + 1);
    assert ms[i..][1..] == ms[i + 1..];
    var n := ByteSize(POKEMON, ms[i]);
    assert cached + Sizes(ms[i..]) == (cached + [Narrow(n)]) + Sizes(ms[i + 1..]);
  }

  lemma {:induction false} SizesAt(ms: seq<Message>, i: nat)
    requires AllTyped(POKEMON, ms) && i < |ms|
    ensures Typed(POKEMON, ms[i]) && Sizes(ms)[i] == Narrow(ByteSize(POKEMON, ms[i]))
  {
    hide ByteSize, Narrow, Typed;
    if i > 0 { SizesAt(ms[1..], i - 1); }
  }

  /** The elements from `i` on are still to be written. */
  ghost predicate ElementsWritten(out: Bytes, ms: seq<Message>, i: nat, before: Bytes)
    requires i <= |ms|
  {
    && AllTyped(POKEMON, ms) && AllTyped(POKEMON, ms[i..])
    && |WriteSubs(3, POKEMON, ms[i..])| <= MAX_LENGTH
    && out + WriteSubs(3, POKEMON, ms[i..]) == before + WriteSubs(3, POKEMON, ms)
  }

  lemma {:induction false} NoneWritten(ms: seq<Message>, before: Bytes)
    requires AllTyped(POKEMON, ms) && |WriteSubs(3, POKEMON, ms)| <= MAX_LENGTH
    ensures ElementsWritten(before, ms, 0, before)
  {
    assert ms[0..] == ms;
  }

  lemma {:induction false} ElementsDone(out: Bytes, ms: seq<Message>, before: Bytes)
    requires ElementsWritten(out, ms, |ms|, before)
    ensures out == before + WriteSubs(3, POKEMON, ms)
  {
    assert out + [] == out;
  }

  lemma {:induction false} WriteOne(out: Bytes, ms: seq<Message>, i: nat, before: Bytes)
    requires i < |ms| && ElementsWritten(out, ms, i, before)
    ensures Typed(POKEMON, ms[i]) && Sizes(ms)[i] >= 0
    ensures ElementsWritten(WriteMessage(3, Sizes(ms)[i], Serialize(POKEMON, ms[i]), out), ms, i + 1, before)
  {
    hide Serialize, Typed, Sizes, WriteMessage, WriteSubs, Numbered;
    AllTypedAt(POKEMON, ms, i);
    AllTypedAt(POKEMON, ms, i + 1);
    SizesAt(ms, i);
    SchemasAreNumbered();
    assert ms[i..][1..] == ms[i + 1..];
    SubWritten(3, POKEMON, ms[i..], Sizes(ms)[i], out);
  }

  lemma {:induction false} SubsAreShort(u: Bytes, n: Signed32, p: seq<Message>)
    requires AllTyped(POKEMON, p)
    ensures Typed(POKEMON_DATA, Pack(u, n, p))
    ensures |WriteSubs(3, POKEMON, p)| <= |Serialize(POKEMON_DATA, Pack(u, n, p))|
  {
    hide AllTyped, WriteSubs;
    PackIsTyped(u, n, p);
    var m := Pack(u, n, p);
    assert WriteFrom(POKEMON_DATA, m, 2) == WriteSubs(3, POKEMON, p) + WriteFrom(POKEMON_DATA, m, 3);
    assert |WriteFrom(POKEMON_DATA, m, 1)| >= |WriteFrom(POKEMON_DATA, m, 2)|;
    assert |WriteFrom(POKEMON_DATA, m, 0)| >= |WriteFrom(POKEMON_DATA, m, 1)|;
  }

  /** Every PokemonInfo, and every list of them with its two other fields, comes back from its
      encoding as it was. */
  lemma {:induction false} PokemonRoundTrip(m: Message)
    requires Typed(POKEMON, m) && |Serialize(POKEMON, m)| <= MAX_LENGTH
    ensures Typed(POKEMON, Cleared(POKEMON)) && Parse(POKEMON, Cleared(POKEMON), Serialize(POKEMON, m)) == Done(m)
  {
    hide Parse, Serialize, Typed;
    SchemasAreNumbered();
    SchemasHoldNoDoubles();
    NoDoublesNoMinusZero(POKEMON, m);
    RoundTripIff(POKEMON, m);
  }

  lemma {:induction false} PokemonDataRoundTrip(m: Message)
    requires Typed(POKEMON_DATA, m) && |Serialize(POKEMON_DATA, m)| <= MAX_LENGTH
    ensures Typed(POKEMON_DATA, Cleared(POKEMON_DATA))
    ensures Parse(POKEMON_DATA, Cleared(POKEMON_DATA), Serialize(POKEMON_DATA, m)) == Done(m)
  {
    hide Parse, Serialize, Typed;
    SchemasAreNumbered();
    SchemasHoldNoDoubles();
    NoDoublesNoMinusZero(POKEMON_DATA, m);
    RoundTripIff(POKEMON_DATA, m);
  }

  lemma {:induction false} SchemasHoldNoDoubles()
    ensures NoDoubles(POKEMON) && NoDoubles(POKEMON_DATA)
  {
  }
}
