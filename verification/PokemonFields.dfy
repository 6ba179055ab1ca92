/** The twenty fields of PokemonInfo, by the octets that stand before them. */
module PokemonFields {
  import opened Octets
  import opened Wire
  import opened Schemas
  import opened CodecLaws
  import opened PokemonData

  /** The octets before the fields, in the order of their numbers: low three bits 0 before a number,
      2 before a text; two octets from number 16 on. */
  const TAGS: seq<Bytes> := [
    [8], [16], [26], [32], [40], [48], [56], [64], [72], [80], [88], [98], [106], [114], [122],
    [130, 1], [138, 1], [146, 1], [154, 1], [162, 1]]

  /** id and typeId, and the numbers from level to SPD; the others are texts. */
  predicate IsNumber(k: nat) { k < 2 || 3 <= k <= 10 }

  lemma {:induction false} TagOctets(k: nat)
    requires k < 20
    ensures |TAGS| == 20 && TAGS[k] == Varint(Tag(k + 1, if IsNumber(k) then VARINT else DELIMITED))
  {
    var tag := Tag(k + 1, if IsNumber(k) then VARINT else DELIMITED);
    if k < 15 {
      assert Varint(tag) == [tag];
    } else {
      assert Varint(tag) == [tag % 128 + 128] + Varint(tag / 128) && Varint(tag / 128) == [1];
    }
  }

  lemma {:induction false} PokemonHasTwentyFields(m: Message)
    requires Typed(POKEMON, m)
    ensures |m.values| == 20
    ensures forall k :: 0 <= k < 20 ==> if IsNumber(k) then m.values[k].Num? else m.values[k].Str?
  {
    forall k | 0 <= k < 20 ensures if IsNumber(k) then m.values[k].Num? else m.values[k].Str? {
      assert TypedValue(POKEMON.kinds[k], m.values[k]);
    }
  }

  /** A number behind one of its tags is stored in its field, and nothing else changes. */
  lemma {:induction false} NumberIsRead(m: Message, k: nat, i: int)
    requires Typed(POKEMON, m) && k < 20 && IsNumber(k) && IsInt32(i)
    ensures |TAGS| == 20 && |m.values| == 20
    ensures Parse(POKEMON, m, TAGS[k] + Varint(ToWord(i))) == Done(Message(m.values[k := Num(i)]))
  {
    hide Parse, Varint, Typed;
    TagOctets(k);
    SchemasAreNumbered();
    VarintIsWhole(i);
    PokemonHasTwentyFields(m);
    OneField(POKEMON, m, k, VARINT, Varint(ToWord(i)));
  }

  /** So is a text behind one of its. */
  lemma {:induction false} TextIsRead(m: Message, k: nat, b: Bytes)
    requires Typed(POKEMON, m) && k < 20 && !IsNumber(k) && |b| <= MAX_LENGTH
    ensures |TAGS| == 20 && |m.values| == 20
    ensures Parse(POKEMON, m, TAGS[k] + (Varint(|b|) + b)) == Done(Message(m.values[k := Str(b)]))
  {
    hide Parse, Varint, Typed;
    TagOctets(k);
    SchemasAreNumbered();
    BlockIsWhole(b);
    PokemonHasTwentyFields(m);
    OneField(POKEMON, m, k, DELIMITED, Block(b));
  }

  lemma {:induction false} OneFieldIsWritten(s: Schema, m: Message, k: nat, j: nat)
    requires Typed(s, m) && k < |s.kinds| && j <= |s.kinds|
    requires forall i :: 0 <= i < |s.kinds| && i != k ==> m.values[i] == DefaultValue(s.kinds[i])
    ensures WriteFrom(s, m, j) == if j <= k then WriteValue(k + 1, s.kinds[k], m.values[k]) else []
    decreases |s.kinds| - j
  {
    if j < |s.kinds| {
      OneFieldIsWritten(s, m, k, j + 1);
      if j != k { DefaultIsNotWritten(j + 1, s.kinds[j]); }
    }
  }

  lemma {:induction false} DefaultIsNotWritten(number: nat, k: Kind)
    ensures TypedValue(k, DefaultValue(k)) && WriteValue(number, k, DefaultValue(k)) == []
  {
  }

  /** The message in which only one field is set. */
  function Only(k: nat, v: Value): Message
    requires k < |POKEMON.kinds|
  {
    Message(Cleared(POKEMON).values[k := v])
  }

  /** A number that is set is written behind its tag, and nothing else is. */
  lemma {:induction false} NumberIsWritten(k: nat, i: int)
    requires k < 20 && IsNumber(k) && IsInt32(i) && i != 0
    ensures |TAGS| == |POKEMON.kinds| == 20 && Typed(POKEMON, Only(k, Num(i)))
    ensures Serialize(POKEMON, Only(k, Num(i))) == TAGS[k] + Varint(ToWord(i))
  {
    hide Varint, WriteFrom;
    TagOctets(k);
    ClearedIsTyped(POKEMON);
    PokemonHasTwentyFields(Cleared(POKEMON));
    OneFieldIsWritten(POKEMON, Only(k, Num(i)), k, 0);
  }

  /** So is a text. */
  lemma {:induction false} TextIsWritten(k: nat, b: Bytes)
    requires k < 20 && !IsNumber(k) && b != []
    ensures |TAGS| == |POKEMON.kinds| == 20 && Typed(POKEMON, Only(k, Str(b)))
    ensures Serialize(POKEMON, Only(k, Str(b))) == TAGS[k] + (Varint(|b|) + b)
  {
    hide Varint, WriteFrom;
    TagOctets(k);
    ClearedIsTyped(POKEMON);
    PokemonHasTwentyFields(Cleared(POKEMON));
    OneFieldIsWritten(POKEMON, Only(k, Str(b)), k, 0);
  }
}
