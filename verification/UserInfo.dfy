/** The generated class UserInfoResponse. */
module UserInfo {
  import opened Octets
  import opened Wire
  import opened Schemas
  import opened CodecLaws
  import opened CodecSizes
  import opened Writers

  const USER_INFO := Schema([Text, Int32, Int32, Double, Int32, Int32, Int32, PackedInt32, Int32])

  /** The values of the fields; enums are kept as numbers. */
  datatype Data = Data(
    userName: Bytes, timeOfDuel: Signed32, timeOfWins: Signed32, winRate: Word, pkmAmountBadge: Signed32,
    highLevelBadge: Signed32, status: Signed32, pokemonId: seq<Signed32>, resStatus: Signed32)

  function Pack(d: Data): Message {
    Message([Str(d.userName), Num(d.timeOfDuel), Num(d.timeOfWins), Bits(d.winRate), Num(d.pkmAmountBadge),
             Num(d.highLevelBadge), Num(d.status), Ints(d.pokemonId), Num(d.resStatus)])
  }

  lemma {:induction false} PackIsTyped(d: Data)
    ensures Typed(USER_INFO, Pack(d))
  {
  }

  lemma {:induction false} PackValues(d: Data)
    ensures |USER_INFO.kinds| == 9 && |Pack(d).values| == 9
    ensures Pack(d).values[0] == Str(d.userName) && Pack(d).values[1] == Num(d.timeOfDuel)
    ensures Pack(d).values[2] == Num(d.timeOfWins) && Pack(d).values[3] == Bits(d.winRate)
    ensures Pack(d).values[4] == Num(d.pkmAmountBadge) && Pack(d).values[5] == Num(d.highLevelBadge)
    ensures Pack(d).values[6] == Num(d.status) && Pack(d).values[7] == Ints(d.pokemonId)
    ensures Pack(d).values[8] == Num(d.resStatus)
  {
  }

  /** The fields of `d` after those of `e` are merged into them. */
  function Merged(d: Data, e: Data): Data {
    Data(
      if |e.userName| > 0 then e.userName else d.userName,
      if e.timeOfDuel != 0 then e.timeOfDuel else d.timeOfDuel,
      if e.timeOfWins != 0 then e.timeOfWins else d.timeOfWins,
      if !IsZero(e.winRate) then e.winRate else d.winRate,
      if e.pkmAmountBadge != 0 then e.pkmAmountBadge else d.pkmAmountBadge,
      if e.highLevelBadge != 0 then e.highLevelBadge else d.highLevelBadge,
      if e.status != 0 then e.status else d.status,
      d.pokemonId + e.pokemonId,
      if e.resStatus != 0 then e.resStatus else d.resStatus)
  }

  lemma {:induction false} PackMerges(d: Data, e: Data)
    ensures Typed(USER_INFO, Pack(d)) && Typed(USER_INFO, Pack(e))
    ensures Merge(USER_INFO, Pack(d), Pack(e)) == Pack(Merged(d, e))
  {
    hide TypedValue, IsZero;
    PackIsTyped(d);
    PackIsTyped(e);
  }

  lemma {:induction false} PackSize(d: Data)
    ensures Typed(USER_INFO, Pack(d))
    ensures ByteSize(USER_INFO, Pack(d)) ==
      ValueSize(1, Text, Str(d.userName)) + ValueSize(2, Int32, Num(d.timeOfDuel))
      + ValueSize(3, Int32, Num(d.timeOfWins)) + ValueSize(4, Double, Bits(d.winRate))
      + ValueSize(5, Int32, Num(d.pkmAmountBadge)) + ValueSize(6, Int32, Num(d.highLevelBadge))
      + ValueSize(7, Int32, Num(d.status)) + ValueSize(8, PackedInt32, Ints(d.pokemonId))
      + ValueSize(9, Int32, Num(d.resStatus))
  {
    hide ValueSize;
    PackIsTyped(d);
  }

  /** What setting one field does to the packed message. */
  lemma {:induction false} PutNums(d: Data, x: Signed32)
    ensures Put(Pack(d), 1, Num(x)) == Pack(d.(timeOfDuel := x))
    ensures Put(Pack(d), 2, Num(x)) == Pack(d.(timeOfWins := x))
    ensures Put(Pack(d), 4, Num(x)) == Pack(d.(pkmAmountBadge := x))
    ensures Put(Pack(d), 5, Num(x)) == Pack(d.(highLevelBadge := x))
    ensures Put(Pack(d), 6, Num(x)) == Pack(d.(status := x))
    ensures Put(Pack(d), 8, Num(x)) == Pack(d.(resStatus := x))
  {
  }

  lemma {:induction false} PutOthers(d: Data, b: Bytes, w: Word, s: seq<Signed32>)
    ensures Put(Pack(d), 0, Str(b)) == Pack(d.(userName := b))
    ensures Put(Pack(d), 3, Bits(w)) == Pack(d.(winRate := w))
    ensures Put(Pack(d), 7, Ints(s)) == Pack(d.(pokemonId := s))
  {
  }

  class UserInfoResponse {
    /** The fields that hold the message. */
    var data: Data
    var pokemonIdCachedByteSize: Signed32
    var cachedSize: Signed32

    constructor ()
      ensures Pack(data) == Cleared(USER_INFO)
    {
      data := Data([], 0, 0, 0, 0, 0, 0, [], 0);
      pokemonIdCachedByteSize, cachedSize := 0, 0;
    }

    /** The cached size of the packed list is that of the present list. */
    ghost predicate CacheIsCurrent()
      reads this
    {
      pokemonIdCachedByteSize == IntsSize(data.pokemonId)
    }

    method Clear()
      modifies this
      ensures Pack(data) == Cleared(USER_INFO)
      ensures pokemonIdCachedByteSize == old(pokemonIdCachedByteSize) && cachedSize == old(cachedSize)
    {
      data := data.(pokemonId := []);
      data := data.(userName := []);
      data := data.(timeOfDuel := 0, timeOfWins := 0, winRate := 0, pkmAmountBadge := 0, highLevelBadge := 0,
                    status := 0, resStatus := 0);
    }

    method MergeFrom(from: UserInfoResponse)
      requires from != this
      modifies this
      ensures Typed(USER_INFO, Pack(old(data))) && Typed(USER_INFO, Pack(from.data))
      ensures Pack(data) == Merge(USER_INFO, Pack(old(data)), Pack(from.data))
      ensures pokemonIdCachedByteSize == old(pokemonIdCachedByteSize) && cachedSize == old(cachedSize)
    {
      hide Pack, Merge, Typed, IsZero;
      PackMerges(data, from.data);
      data := data.(pokemonId := data.pokemonId + from.data.pokemonId);
      if |from.data.userName| > 0 { data := data.(userName := from.data.userName); }
      if from.data.timeOfDuel != 0 { data := data.(timeOfDuel := from.data.timeOfDuel); }
      if from.data.timeOfWins != 0 { data := data.(timeOfWins := from.data.timeOfWins); }
      if !IsZero(from.data.winRate) { data := data.(winRate := from.data.winRate); }
      if from.data.pkmAmountBadge != 0 { data := data.(pkmAmountBadge := from.data.pkmAmountBadge); }
      if from.data.highLevelBadge != 0 { data := data.(highLevelBadge := from.data.highLevelBadge); }
      if from.data.status != 0 { data := data.(status := from.data.status); }
      if from.data.resStatus != 0 { data := data.(resStatus := from.data.resStatus); }
    }

    method ByteSizeLong() returns (totalSize: nat)
      modifies this`pokemonIdCachedByteSize, this`cachedSize
      ensures Typed(USER_INFO, Pack(data)) && totalSize == ByteSize(USER_INFO, Pack(data))
      ensures pokemonIdCachedByteSize == Narrow(IntsSize(data.pokemonId)) && cachedSize == Narrow(totalSize)
    {
      hide Pack, ByteSize, Typed, IntsSize, Int32Size, BlockSize, TagSize, Narrow, IsZero, ValueSize;
      PackSize(data);
      TagSizes();
      var d := data;
      totalSize := 0;
      var dataSize := PackedSize(d.pokemonId);
      if dataSize > 0 { totalSize := totalSize + 1 + Int32Size(Narrow(dataSize)); }
      pokemonIdCachedByteSize := Narrow(dataSize);
      totalSize := totalSize + dataSize;
      ListSize(8, d.pokemonId);
      ghost var sum := ValueSize(8, PackedInt32, Ints(d.pokemonId));
      assert totalSize == sum;
      if |d.userName| > 0 { totalSize := totalSize + 1 + BlockSize(|d.userName|); }
      TextSize(1, d.userName);
      sum := sum + ValueSize(1, Text, Str(d.userName));
      assert totalSize == sum;
      if d.timeOfDuel != 0 { totalSize := totalSize + 1 + Int32Size(d.timeOfDuel); }
      NumSize(2, d.timeOfDuel);
      sum := sum + ValueSize(2, Int32, Num(d.timeOfDuel));
      assert totalSize == sum;
      if d.timeOfWins != 0 { totalSize := totalSize + 1 + Int32Size(d.timeOfWins); }
      NumSize(3, d.timeOfWins);
      sum := sum + ValueSize(3, Int32, Num(d.timeOfWins));
      assert totalSize == sum;
      if !IsZero(d.winRate) { totalSize := totalSize + 1 + 8; }
      BitsSize(4, d.winRate);
      sum := sum + ValueSize(4, Double, Bits(d.winRate));
      assert totalSize == sum;
      if d.pkmAmountBadge != 0 { totalSize := totalSize + 1 + Int32Size(d.pkmAmountBadge); }
      NumSize(5, d.pkmAmountBadge);
      sum := sum + ValueSize(5, Int32, Num(d.pkmAmountBadge));
      assert totalSize == sum;
      if d.highLevelBadge != 0 { totalSize := totalSize + 1 + Int32Size(d.highLevelBadge); }
      NumSize(6, d.highLevelBadge);
      sum := sum + ValueSize(6, Int32, Num(d.highLevelBadge));
      assert totalSize == sum;
      if d.status != 0 { totalSize := totalSize + 1 + Int32Size(d.status); }
      NumSize(7, d.status);
      sum := sum + ValueSize(7, Int32, Num(d.status));
      assert totalSize == sum;
      if d.resStatus != 0 { totalSize := totalSize + 1 + Int32Size(d.resStatus); }
      NumSize(9, d.resStatus);
      sum := sum + ValueSize(9, Int32, Num(d.resStatus));
      assert totalSize == sum;
      cachedSize := Narrow(totalSize);
    }

    method InternalSerialize(target: Bytes) returns (out: Bytes)
      requires CacheIsCurrent()
      ensures Typed(USER_INFO, Pack(data)) && out == target + Serialize(USER_INFO, Pack(data))
    {
      hide Pack, Serialize, Written, WriteInt32, WriteBytes, WriteDouble, PackedList, WritePacked, Typed, IsZero,
          IntsSize;
      ghost var m := Pack(data);
      PackIsTyped(data);
      PackValues(data);
      AllWritten(USER_INFO, m, target, target);
      out := target;
      ghost var before := out;
      if |data.userName| > 0 { out := WriteBytes(1, data.userName, out); }
      TextWritten(USER_INFO, m, 0, data.userName, target, before, out);
      before := out;
      if data.timeOfDuel != 0 { out := WriteInt32(2, data.timeOfDuel, out); }
      NumWritten(USER_INFO, m, 1, data.timeOfDuel, target, before, out);
      before := out;
      if data.timeOfWins != 0 { out := WriteInt32(3, data.timeOfWins, out); }
      NumWritten(USER_INFO, m, 2, data.timeOfWins, target, before, out);
      before := out;
      if !IsZero(data.winRate) { out := WriteDouble(4, data.winRate, out); }
      BitsWritten(USER_INFO, m, 3, data.winRate, target, before, out);
      before := out;
      if data.pkmAmountBadge != 0 { out := WriteInt32(5, data.pkmAmountBadge, out); }
      NumWritten(USER_INFO, m, 4, data.pkmAmountBadge, target, before, out);
      before := out;
      if data.highLevelBadge != 0 { out := WriteInt32(6, data.highLevelBadge, out); }
      NumWritten(USER_INFO, m, 5, data.highLevelBadge, target, before, out);
      before := out;
      if data.status != 0 { out := WriteInt32(7, data.status, out); }
      NumWritten(USER_INFO, m, 6, data.status, target, before, out);
      CurrentSizeWrites(8, data.pokemonId, pokemonIdCachedByteSize);
      before := out;
      if pokemonIdCachedByteSize > 0 { out := WriteInt32Packed(8, data.pokemonId, pokemonIdCachedByteSize, out); }
      IntsWritten(USER_INFO, m, 7, data.pokemonId, pokemonIdCachedByteSize, target, before, out);
      before := out;
      if data.resStatus != 0 { out := WriteInt32(9, data.resStatus, out); }
      NumWritten(USER_INFO, m, 8, data.resStatus, target, before, out);
      AllWritten(USER_INFO, m, target, out);
    }

    /** Sizes first, then the octets: the cached size of the list is current when it is needed. */
    method SerializeAsString() returns (out: Bytes)
      requires Typed(USER_INFO, Pack(data)) && |Serialize(USER_INFO, Pack(data))| <= MAX_LENGTH
      modifies this`pokemonIdCachedByteSize, this`cachedSize
      ensures out == Serialize(USER_INFO, Pack(data)) && |out| == cachedSize
    {
      hide Pack, Serialize, ByteSize, Typed, ValueSize, Narrow, IntsSize;
      UserInfoIsNumbered();
      ByteSizeIsExact(USER_INFO, Pack(data));
      var size := ByteSizeLong();
      PackedFits(data);
      SmallSizes(size);
      SmallSizes(IntsSize(data.pokemonId));
      out := InternalSerialize([]);
      assert [] + Serialize(USER_INFO, Pack(data)) == Serialize(USER_INFO, Pack(data));
    }

    method InternalParse(ptr: Bytes) returns (end: Status)
      modifies this`data
      ensures Typed(USER_INFO, Pack(old(data)))
      ensures end == StatusOf(Parse(USER_INFO, Pack(old(data)), ptr))
      ensures end.Accepted? ==> Parse(USER_INFO, Pack(old(data)), ptr) == Done(Pack(data))
    {
      hide Parse, Pack, Typed, TypedValue, ReadTag, ReadVarint64, ReadBlock, ReadInts, Put, ToInt32, FromLittle,
          Refused;
      PackIsTyped(data);
      var p := ptr;
      while p != []
        invariant Typed(USER_INFO, Pack(old(data)))
        invariant Parse(USER_INFO, Pack(old(data)), ptr) == ParseRest(data, p)
        decreases |p|
      {
        ghost var d, b := data, p;
        PackIsTyped(d);
        PackValues(d);
        EmptyRound(USER_INFO, Pack(d), b);
        var t := ReadTag(p);
        if t.None? {
          return Rejected;
        }
        var (tag, rest) := t.value;
        if tag / 8 == 1 && tag % 256 == 10 {
          TextRound(USER_INFO, Pack(d), b, 0);
          var str := ReadBlock(rest);
          if str.None? { return Rejected; }
          data, p := data.(userName := str.value.0), str.value.1;
          PutOthers(d, data.userName, data.winRate, data.pokemonId);
        } else if tag / 8 == 2 && tag % 256 == 16 {
          NumRound(USER_INFO, Pack(d), b, 1);
          var val := ReadVarint64(rest);
          if val.None? { return Rejected; }
          data, p := data.(timeOfDuel := ToInt32(val.value.0)), val.value.1;
          PutNums(d, data.timeOfDuel);
        } else if tag / 8 == 3 && tag % 256 == 24 {
          NumRound(USER_INFO, Pack(d), b, 2);
          var val := ReadVarint64(rest);
          if val.None? { return Rejected; }
          data, p := data.(timeOfWins := ToInt32(val.value.0)), val.value.1;
          PutNums(d, data.timeOfWins);
        } else if tag / 8 == 4 && tag % 256 == 33 {
          BitsRound(USER_INFO, Pack(d), b, 3);
          if |rest| < 8 { return Rejected; }
          EightOctets(rest[..8]);
          data, p := data.(winRate := FromLittle(rest[..8])), rest[8..];
          PutOthers(d, data.userName, data.winRate, data.pokemonId);
        } else if tag / 8 == 5 && tag % 256 == 40 {
          NumRound(USER_INFO, Pack(d), b, 4);
          var val := ReadVarint64(rest);
          if val.None? { return Rejected; }
          data, p := data.(pkmAmountBadge := ToInt32(val.value.0)), val.value.1;
          PutNums(d, data.pkmAmountBadge);
        } else if tag / 8 == 6 && tag % 256 == 48 {
          NumRound(USER_INFO, Pack(d), b, 5);
          var val := ReadVarint64(rest);
          if val.None? { return Rejected; }
          data, p := data.(highLevelBadge := ToInt32(val.value.0)), val.value.1;
          PutNums(d, data.highLevelBadge);
        } else if tag / 8 == 7 && tag % 256 == 56 {
          NumRound(USER_INFO, Pack(d), b, 6);
          var val := ReadVarint64(rest);
          if val.None? { return Rejected; }
          data, p := data.(status := ToInt32(val.value.0)), val.value.1;
          PutNums(d, data.status);
        } else if tag / 8 == 8 && tag % 256 == 66 {
          IntsRound(USER_INFO, Pack(d), b, 7);
          var block := ReadBlock(rest);
          if block.None? { return Rejected; }
          var ids := ReadInts(block.value.0);
          if ids.None? { return Rejected; }
          ReadIntsAreInt32(block.value.0);
          data, p := data.(pokemonId := data.pokemonId + ids.value), block.value.1;
          PutOthers(d, data.userName, data.winRate, data.pokemonId);
        } else if tag / 8 == 8 && tag % 256 == 64 {
          SingleRound(USER_INFO, Pack(d), b, 7);
          var val := ReadVarint64(rest);
          if val.None? { return Rejected; }
          data, p := data.(pokemonId := data.pokemonId + [ToInt32(val.value.0)]), val.value.1;
          PutOthers(d, data.userName, data.winRate, data.pokemonId);
        } else if tag / 8 == 9 && tag % 256 == 72 {
          NumRound(USER_INFO, Pack(d), b, 8);
          var val := ReadVarint64(rest);
          if val.None? { return Rejected; }
          data, p := data.(resStatus := ToInt32(val.value.0)), val.value.1;
          PutNums(d, data.resStatus);
        } else {
          UnusualRound(USER_INFO, Pack(d), b);
          return if Refused(tag) then Rejected else Unmodelled;
        }
      }
      PackIsTyped(data);
      EmptyRound(USER_INFO, Pack(data), p);
      end := Accepted;
    }

  }

  lemma {:induction false} UserInfoIsNumbered()
    ensures Numbered(USER_INFO)
  {
  }

  lemma {:induction false} PackedFits(d: Data)
    ensures Typed(USER_INFO, Pack(d)) && IntsSize(d.pokemonId) <= ByteSize(USER_INFO, Pack(d))
  {
    PackSize(d);
  }

  /** A UserInfoResponse comes back from its encoding exactly when its winRate is not -0.0. */
  lemma {:induction false} UserInfoRoundTripIff(d: Data)
    requires Typed(USER_INFO, Pack(d)) && |Serialize(USER_INFO, Pack(d))| <= MAX_LENGTH
    ensures Typed(USER_INFO, Cleared(USER_INFO))
    ensures Parse(USER_INFO, Cleared(USER_INFO), Serialize(USER_INFO, Pack(d))) == Done(Pack(d))
      <==> d.winRate != MINUS_ZERO
  {
    hide Parse, Serialize;
    UserInfoIsNumbered();
    RoundTripIff(USER_INFO, Pack(d));
    assert PlainValue(USER_INFO.kinds[3], Pack(d).values[3]) <==> d.winRate != MINUS_ZERO;
  }

  ghost function ParseRest(d: Data, p: Bytes): Outcome<Message> {
    PackIsTyped(d);
    Parse(USER_INFO, Pack(d), p)
  }
}
