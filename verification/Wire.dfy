/** The primitives of the Protocol Buffers wire format. */
module Wire {
  import opened Octets
  import opened Options

  const WORD := 0x1_0000_0000_0000_0000
  const HALF_WORD := 0x1_0000_0000

  /** The longest string, packed list or nested message the reader accepts. */
  const MAX_LENGTH := 0x7FFF_FFFF - 16

  function Varint(v: nat): (b: Bytes)
    ensures |b| > 0
  {
    if v < 128 then [v] else [v % 128 + 128] + Varint(v / 128)
  }

  /** A varint of at most `limit` octets, and what follows it. */
  function ReadVarint(b: Bytes, limit: nat): (r: Option<(nat, Bytes)>)
    ensures r.Some? ==> |r.value.1| < |b|
    decreases limit
  {
    if b == [] || limit == 0 then None
    else if b[0] < 128 then Some((b[0], b[1..]))
    else
      var r := ReadVarint(b[1..], limit - 1);
      if r.None? then None else Some((b[0] - 128 + 128 * r.value.0, r.value.1))
  }

  /** A field value: ten octets at most, the value modulo 2^64. */
  function ReadVarint64(b: Bytes): (r: Option<(nat, Bytes)>)
    ensures r.Some? ==> |r.value.1| < |b| && r.value.0 < WORD
  {
    var r := ReadVarint(b, 10);
    if r.None? then None else Some((r.value.0 % WORD, r.value.1))
  }

  /** A tag: five octets at most, the value modulo 2^32. */
  function ReadTag(b: Bytes): (r: Option<(nat, Bytes)>)
    ensures r.Some? ==> |r.value.1| < |b| && r.value.0 < HALF_WORD
  {
    var r := ReadVarint(b, 5);
    if r.None? then None else Some((r.value.0 % HALF_WORD, r.value.1))
  }

  /** A length and that many octets. */
  function ReadBlock(b: Bytes): (r: Option<(Bytes, Bytes)>)
    ensures r.Some? ==> |r.value.1| < |b| && |r.value.0| <= MAX_LENGTH
  {
    var r := ReadVarint(b, 5);
    if r.None? || r.value.0 > MAX_LENGTH || r.value.0 > |r.value.1| then None
    else Some((r.value.1[..r.value.0], r.value.1[r.value.0..]))
  }

  function Block(b: Bytes): Bytes {
    Varint(|b|) + b
  }

  /** Signed 32-bit fields travel sign-extended to 64 bits. */
  function ToWord(i: int): (v: nat)
    requires IsInt32(i)
    ensures v < WORD
  {
    if i < 0 then i + WORD else i
  }

  predicate IsInt32(i: int) { -0x8000_0000 <= i < 0x8000_0000 }

  function ToInt32(v: nat): (i: int)
    ensures IsInt32(i)
  {
    var low := v % HALF_WORD;
    if low < 0x8000_0000 then low else low - HALF_WORD
  }

  lemma {:induction false} Int32RoundTrip(i: int)
    requires IsInt32(i)
    ensures ToInt32(ToWord(i)) == i
  {
    if i < 0 {
      assert (i + WORD) % HALF_WORD == i + HALF_WORD;
    }
  }

  lemma {:induction false} VarintRoundTrip(v: nat, limit: nat, rest: Bytes)
    requires 0 < limit && v < Power(128, limit)
    ensures ReadVarint(Varint(v) + rest, limit) == Some((v, rest))
    decreases limit
  {
    if v < 128 {
      assert (Varint(v) + rest)[1..] == rest;
    } else {
      VarintRoundTrip(v / 128, limit - 1, rest);
      assert (Varint(v) + rest)[1..] == Varint(v / 128) + rest;
    }
  }

  lemma {:induction false} Powers()
    ensures Power(128, 10) >= WORD && Power(128, 5) >= HALF_WORD
  {
    assert Power(128, 2) == 0x4000;
    PowerOfSum(128, 2, 2);
    PowerOfSum(128, 4, 1);
    PowerOfSum(128, 5, 5);
  }

  lemma {:induction false} Varint64RoundTrip(v: nat, rest: Bytes)
    requires v < WORD
    ensures ReadVarint64(Varint(v) + rest) == Some((v, rest))
  {
    Powers();
    VarintRoundTrip(v, 10, rest);
  }

  lemma {:induction false} TagRoundTrip(v: nat, rest: Bytes)
    requires v < HALF_WORD
    ensures ReadTag(Varint(v) + rest) == Some((v, rest))
  {
    Powers();
    VarintRoundTrip(v, 5, rest);
  }

  lemma {:induction false} ShortTag(b: Bytes)
    requires b != [] && b[0] < 128
    ensures ReadTag(b) == Some((b[0], b[1..]))
  {
  }

  lemma {:induction false} BlockRoundTrip(b: Bytes, rest: Bytes)
    requires |b| <= MAX_LENGTH
    ensures ReadBlock(Block(b) + rest) == Some((b, rest))
  {
    Powers();
    assert Block(b) + rest == Varint(|b|) + (b + rest);
    VarintRoundTrip(|b|, 5, b + rest);
  }

  /** Readers do not look past what they read. */
  lemma {:induction false} VarintExtends(b: Bytes, limit: nat, more: Bytes)
    requires ReadVarint(b, limit).Some?
    ensures ReadVarint(b + more, limit) == Some((ReadVarint(b, limit).value.0, ReadVarint(b, limit).value.1 + more))
    decreases limit
  {
    assert (b + more)[1..] == b[1..] + more;
    if b[0] >= 128 {
      VarintExtends(b[1..], limit - 1, more);
    }
  }

  lemma {:induction false} BlockExtends(b: Bytes, more: Bytes)
    requires ReadBlock(b).Some?
    ensures ReadBlock(b + more) == Some((ReadBlock(b).value.0, ReadBlock(b).value.1 + more))
  {
    VarintExtends(b, 5, more);
    var (n, rest) := ReadVarint(b, 5).value;
    assert (rest + more)[..n] == rest[..n] && (rest + more)[n..] == rest[n..] + more;
  }

  // ---------------------------------------------------------------- sizes

  function Log2(v: nat): nat {
    if v < 2 then 0 else 1 + Log2(v / 2)
  }

  /** The size of a varint as the library computes it, without a loop. */
  function VarintSize(v: nat): nat {
    (Log2(if v % 2 == 0 then v + 1 else v) * 9 + 73) / 64
  }

  /** The size of a 32-bit field; negative numbers count as ten without looking. */
  function Int32Size(i: int): nat {
    if i < 0 then 10 else VarintSize(i % HALF_WORD)
  }

  function BlockSize(length: nat): nat {
    length + VarintSize(length % HALF_WORD)
  }

  lemma {:induction false} Log2Steps(v: nat)
    requires v >= 128
    ensures Log2(v) == 7 + Log2(v / 128)
  {
    assert v / 2 / 2 / 2 / 2 / 2 / 2 / 2 == v / 128;
    assert Log2(v) == 3 + Log2(v / 8);
    assert Log2(v / 8) == 3 + Log2(v / 64);
    assert Log2(v / 64) == 1 + Log2(v / 128);
  }

  lemma {:induction false} Log2IgnoresLowBit(v: nat)
    requires v % 2 == 0
    ensures Log2(v + 1) == Log2(v)
  {
    assert (v + 1) / 2 == v / 2;
  }

  lemma {:induction false} Log2Bound(v: nat, n: nat)
    requires 0 < n && v < Power(2, n)
    ensures Log2(v) < n
    decreases n
  {
    if v >= 2 { Log2Bound(v / 2, n - 1); }
  }

  lemma {:induction false} VarintLength(v: nat)
    ensures |Varint(v)| == Log2(v) / 7 + 1
  {
    if v < 128 {
      assert Power(2, 7) == 128;
      Log2Bound(v, 7);
    } else {
      VarintLength(v / 128);
      Log2Steps(v);
    }
  }

  lemma {:induction false} Power2Of64()
    ensures Power(2, 64) == WORD
  {
    assert Power(2, 8) == 256;
    PowerOfSum(2, 8, 8);
    PowerOfSum(2, 16, 16);
    PowerOfSum(2, 32, 32);
  }

  /** The multiplication by nine and the division by 64 give the number of octets written. */
  lemma {:induction false} VarintSizeIsExact(v: nat)
    requires v < WORD
    ensures VarintSize(v) == |Varint(v)|
  {
    VarintLength(v);
    Power2Of64();
    Log2Bound(v, 64);
    if v % 2 == 0 { Log2IgnoresLowBit(v); }
    var x := Log2(v);
    assert (x * 9 + 73) / 64 == x / 7 + 1;
  }

  lemma {:induction false} Int32SizeIsExact(i: int)
    requires IsInt32(i)
    ensures Int32Size(i) == |Varint(ToWord(i))|
  {
    VarintSizeIsExact(ToWord(i));
    if i < 0 {
      VarintLength(i + WORD);
      Power2Of64();
      Log2Bound(i + WORD, 64);
      Log2AtLeast(i + WORD, 63);
    } else {
      assert i % HALF_WORD == i;
    }
  }

  lemma {:induction false} Log2AtLeast(v: nat, n: nat)
    requires v >= Power(2, n)
    ensures Log2(v) >= n
    decreases n
  {
    if n > 0 {
      Log2AtLeast(v / 2, n - 1);
      PowerPositive(n - 1);
    }
  }

  lemma {:induction false} PowerPositive(n: nat)
    ensures Power(2, n) > 0
  {
    if n > 0 { PowerPositive(n - 1); }
  }

  /** The number a varint stands for: seven bits an octet, the lowest first. */
  function SevenBits(b: Bytes): nat {
    if b == [] then 0 else b[0] % 128 + 128 * SevenBits(b[1..])
  }

  /** Every octet of a varint but the last has its top bit set, and the other bits are the number. */
  lemma {:induction false} VarintBits(v: nat)
    ensures SevenBits(Varint(v)) == v
    ensures forall i :: 0 <= i < |Varint(v)| ==> (Varint(v)[i] >= 128 <==> i < |Varint(v)| - 1)
  {
    if v >= 128 {
      VarintBits(v / 128);
      assert Varint(v)[1..] == Varint(v / 128);
    } else {
      assert Varint(v)[1..] == [];
    }
  }

  /** One of the first `limit` octets has its top bit clear. */
  predicate Ends(b: Bytes, limit: nat) {
    exists i :: 0 <= i < limit && i < |b| && b[i] < 128
  }

  lemma {:induction false} VarintIsReadIff(b: Bytes, limit: nat)
    ensures ReadVarint(b, limit).Some? <==> Ends(b, limit)
    decreases limit
  {
    if b != [] && limit > 0 && b[0] >= 128 {
      VarintIsReadIff(b[1..], limit - 1);
      if Ends(b, limit) {
        var i :| 0 <= i < limit && i < |b| && b[i] < 128;
        assert b[1..][i - 1] < 128;
      }
      if Ends(b[1..], limit - 1) {
        var i :| 0 <= i < limit - 1 && i < |b[1..]| && b[1..][i] < 128;
        assert b[i + 1] < 128;
      }
    }
  }

  /** Numbers are read if and only if they end within ten octets, tags within five. */
  lemma {:induction false} LongVarintsAreRefused(b: Bytes)
    ensures ReadVarint64(b).None? <==> forall i :: 0 <= i < 10 && i < |b| ==> b[i] >= 128
    ensures ReadTag(b).None? <==> forall i :: 0 <= i < 5 && i < |b| ==> b[i] >= 128
  {
    VarintIsReadIff(b, 10);
    VarintIsReadIff(b, 5);
  }

  /** Minus one is written like 2^64 - 1, in ten octets. */
  lemma {:induction false} MinusOne()
    ensures ToWord(-1) == 0xFFFF_FFFF_FFFF_FFFF && |Varint(ToWord(-1))| == 10
  {
    Int32SizeIsExact(-1);
  }

  /** A block is refused exactly when its length is over 2^31 - 17 or over what follows. */
  lemma {:induction false} BlockIsRefusedIff(n: nat, rest: Bytes)
    requires n < 0x1_0000_0000
    ensures ReadBlock(Varint(n) + rest).None? <==> n > 2147483631 || n > |rest|
  {
    Powers();
    VarintRoundTrip(n, 5, rest);
  }
}
