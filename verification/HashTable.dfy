/** The DNS hash table: 1024 buckets chosen by the ELF hash. */
module HashTables {
  import opened HashChains
  import opened Octets
  import opened Options

  const MAX_AMOUNT := 1024

  function Byte(c: char): (b: int)
    ensures 0 <= b < 256
  {
    c as int % 256
  }

  /** Exclusive or of the low `bits` bits. */
  function Xor(a: nat, b: nat, bits: nat): (r: nat)
    decreases bits
  {
    if bits == 0 then 0 else (a + b) % 2 + 2 * Xor(a / 2, b / 2, bits - 1)
  }

  lemma {:induction false} XorIsSmall(a: nat, b: nat, bits: nat)
    ensures Xor(a, b, bits) < Power(2, bits)
    decreases bits
  {
    if bits > 0 { XorIsSmall(a / 2, b / 2, bits - 1); }
  }

  lemma {:induction false} XorOfOctets(a: nat, b: nat)
    ensures Xor(a, b, 8) < 256
  {
    XorIsSmall(a, b, 8);
    assert Power(2, 8) == 256;
  }

  lemma {:induction false} FoldedIsSmall(high: nat, middle: nat, low: nat)
    requires high < 0x100_0000_0000 && middle < 256 && low < 256
    ensures high * 0x1_0000 + middle * 256 + low < 0x100_0000_0000_0000
  {
  }

  /** One round of the hash on 64-bit words.  The top eight bits are folded into bits 8 to 15 and
      cleared, so the hash stays below 2^56 between rounds. */
  function HashRound(hash: int, c: char): (h: int)
    requires 0 <= hash < 0x100_0000_0000_0000
    ensures 0 <= h < 0x100_0000_0000_0000
  {
    var shifted := hash * 256 + Byte(c);
    var magic := shifted / 0x100_0000_0000_0000;
    var rest := shifted % 0x100_0000_0000_0000;
    var middle := Xor(rest / 256 % 256, magic, 8);
    XorOfOctets(rest / 256 % 256, magic);
    FoldedIsSmall(rest / 0x1_0000, middle, rest % 256);
    rest / 0x1_0000 * 0x1_0000 + middle * 256 + rest % 256
  }

  function HashOf(s: string, hash: int): (h: int)
    requires 0 <= hash < 0x100_0000_0000_0000
    ensures 0 <= h < 0x100_0000_0000_0000
    decreases |s|
  {
    if s == [] then hash else HashOf(s[1..], HashRound(hash, s[0]))
  }

  method ElfHash(s: string) returns (hash: int)
    ensures hash == HashOf(s, 0)
  {
    hash := 0;
    var cnt := 0;
    while cnt < |s|
      invariant 0 <= cnt <= |s| && 0 <= hash < 0x100_0000_0000_0000
      invariant HashOf(s[cnt..], hash) == HashOf(s, 0)
    {
      assert s[cnt..][1..] == s[cnt + 1..];
      hash := HashRound(hash, s[cnt]);
      cnt := cnt + 1;
    }
  }

  function BucketOf(s: string): (b: nat)
    ensures b < MAX_AMOUNT
  {
    HashOf(s, 0) % MAX_AMOUNT
  }

  lemma {:induction false} XorZero(a: nat, bits: nat)
    requires a < Power(2, bits)
    ensures Xor(a, 0, bits) == a
    decreases bits
  {
    if bits > 0 { XorZero(a / 2, bits - 1); }
  }

  function Bit(x: nat, i: nat): nat {
    if i == 0 then x % 2 else Bit(x / 2, i - 1)
  }

  lemma {:induction false} LowestBit(a: nat, b: nat, high: nat)
    ensures var x := (a + b) % 2 + 2 * high;
      x % 2 == (if a % 2 == b % 2 then 0 else 1) && x / 2 == high
  {
  }

  lemma {:induction false} XorBit(a: nat, b: nat, bits: nat, i: nat)
    requires i < bits
    ensures Bit(Xor(a, b, bits), i) == (if Bit(a, i) == Bit(b, i) then 0 else 1)
  {
    LowestBit(a, b, Xor(a / 2, b / 2, bits - 1));
    if i > 0 { XorBit(a / 2, b / 2, bits - 1, i - 1); }
  }

  /** Numbers put together of octets, and taken apart. */
  lemma {:induction false} Digits(high: nat, middle: nat, low: nat)
    requires middle < 256 && low < 256
    ensures var x := high * 0x1_0000 + middle * 256 + low;
      x / 0x1_0000 == high && x / 256 % 256 == middle && x % 256 == low
  {
    var x := high * 0x1_0000 + middle * 256 + low;
    assert x == 256 * (high * 256 + middle) + low;
    assert x / 256 == high * 256 + middle;
  }

  /** A round on words: the letter becomes the lowest octet, what was there moves up by eight bits,
      and the octet that would leave the word is folded into the one above the letter. */
  lemma {:induction false} TopOctetIsFolded(hash: nat, c: char, i: nat)
    requires hash < 0x100_0000_0000_0000 && i < 8
    ensures var h := HashRound(hash, c);
      && h % 256 == c as int % 256
      && h / 0x1_0000 == hash / 256 % 0x100_0000_0000
      && (Bit(h / 256 % 256, i) == 1 <==> Bit(hash % 256, i) != Bit(hash / 0x1_0000_0000_0000, i))
  {
    hide Xor, Bit;
    var top, high, low := hash / 0x1_0000_0000_0000, hash / 256 % 0x100_0000_0000, hash % 256;
    MovedUp(hash, Byte(c));
    XorOfOctets(low, top);
    XorBit(low, top, 8, i);
    Digits(high, Xor(low, top, 8), Byte(c));
  }

  lemma {:induction false} MovedUp(hash: nat, byte: nat)
    requires hash < 0x100_0000_0000_0000 && byte < 256
    ensures var shifted := hash * 256 + byte;
      && shifted / 0x100_0000_0000_0000 == hash / 0x1_0000_0000_0000
      && shifted % 0x100_0000_0000_0000 / 0x1_0000 == hash / 256 % 0x100_0000_0000
      && shifted % 0x100_0000_0000_0000 / 256 % 256 == hash % 256
      && shifted % 0x100_0000_0000_0000 % 256 == byte
  {
    var top, high, low := hash / 0x1_0000_0000_0000, hash / 256 % 0x100_0000_0000, hash % 256;
    assert hash / 256 == top * 0x100_0000_0000 + high;
    var rest := high * 0x1_0000 + low * 256 + byte;
    assert hash * 256 + byte == top * 0x100_0000_0000_0000 + rest && rest < 0x100_0000_0000_0000;
    Digits(high, low, byte);
  }

  /** As long as the top bits stay clear a round just appends a byte. */
  lemma {:induction false} RoundAppends(hash: int, c: char)
    requires 0 <= hash < 0x1_0000_0000_0000
    ensures HashRound(hash, c) == hash * 256 + Byte(c)
  {
    var shifted := hash * 256 + Byte(c);
    assert shifted / 0x100_0000_0000_0000 == 0 && shifted % 0x100_0000_0000_0000 == shifted;
    assert Power(2, 8) == 256;
    XorZero(shifted / 256 % 256, 8);
    LowBytes(shifted);
  }

  lemma {:induction false} LowBytes(x: nat)
    ensures x / 0x1_0000 * 0x1_0000 + x / 256 % 256 * 256 + x % 256 == x
  {
    assert x / 256 / 256 == x / 0x1_0000;
  }

  lemma {:induction false} HashAppends(s: string, hash: int, c: char)
    requires 0 <= hash < 0x1_0000_0000_0000
    ensures HashOf([c] + s, hash) == HashOf(s, hash * 256 + Byte(c))
  {
    hide HashRound;
    RoundAppends(hash, c);
    assert ([c] + s)[1..] == s;
  }

  /** Buckets are shared already by two-letter names: only the second letter and the lowest two
      bits of the first one count. */
  lemma {:induction false} NamesCollide(a: char, b: char, c: char)
    requires Byte(a) % 4 == Byte(b) % 4
    ensures BucketOf([a, c]) == BucketOf([b, c])
  {
    hide HashOf, Byte;
    TwoLetters(a, c);
    TwoLetters(b, c);
    LowestBits(Byte(a), Byte(c));
    LowestBits(Byte(b), Byte(c));
  }

  lemma {:induction false} LowestBits(x: nat, y: nat)
    requires y < 256
    ensures (256 * x + y) % 1024 == 256 * (x % 4) + y
  {
    assert 256 * x + y == 1024 * (x / 4) + (256 * (x % 4) + y);
    Remainder(x / 4, 256 * (x % 4) + y);
  }

  lemma {:induction false} Remainder(q: nat, r: nat)
    requires r < 1024
    ensures (1024 * q + r) % 1024 == r
  {
  }

  lemma {:induction false} TwoLetters(a: char, c: char)
    ensures HashOf([a, c], 0) == 256 * Byte(a) + Byte(c)
  {
    assert [a, c] == [a] + [c] && [c] == [c] + [];
    HashAppends([c], 0, a);
    HashAppends([], Byte(a), c);
  }

  lemma {:induction false} ThreeFirst(c0: char, c1: char, c2: char, t: string) returns (h: int)
    ensures 0 <= h < 0x100_0000 && HashOf([c0, c1, c2] + t, 0) == HashOf(t, h)
  {
    hide HashRound, HashOf;
    HashAppends([c1, c2] + t, 0, c0);
    HashAppends([c2] + t, Byte(c0), c1);
    HashAppends(t, 256 * Byte(c0) + Byte(c1), c2);
    assert [c0, c1, c2] + t == [c0] + ([c1, c2] + t);
    assert [c1, c2] + t == [c1] + ([c2] + t);
    h := 256 * (256 * Byte(c0) + Byte(c1)) + Byte(c2);
  }

  lemma {:induction false} LastTwo(h: int, c: char, d: char)
    requires 0 <= h < 0x100_0000
    ensures HashOf([c, d], h) == 0x1_0000 * h + 256 * Byte(c) + Byte(d)
  {
    hide HashRound;
    HashAppends([d], h, c);
    HashAppends([], 256 * h + Byte(c), d);
    assert [c, d] == [c] + [d] && [d] == [d] + [];
  }

  /** The lowest octet of the hash is the last letter. */
  lemma {:induction false} LastLetter(s: string, hash: int)
    requires s != [] && 0 <= hash < 0x100_0000_0000_0000
    ensures HashOf(s, hash) % 256 == Byte(s[|s| - 1])
    decreases |s|
  {
    if |s| == 1 {
      LowOctet(hash, s[0]);
      assert s[1..] == [];
    } else {
      LastLetter(s[1..], HashRound(hash, s[0]));
    }
  }

  lemma {:induction false} LowOctet(hash: int, c: char)
    requires 0 <= hash < 0x100_0000_0000_0000
    ensures HashRound(hash, c) % 256 == Byte(c)
  {
    hide Xor;
    var shifted := hash * 256 + Byte(c);
    var magic, rest := shifted / 0x100_0000_0000_0000, shifted % 0x100_0000_0000_0000;
    var q := hash - 0x1_0000_0000_0000 * magic;
    assert rest == 256 * q + Byte(c);
    LowByte(q, Byte(c));
    LowByte(256 * (rest / 0x1_0000) + Xor(rest / 256 % 256, magic, 8), rest % 256);
  }

  function Letter(k: nat): char
    requires k < 16
  {
    'a' + k as char
  }

  /** The `i`-th of 4096 names of five letters in the bucket of `z`. */
  function Neighbour(z: string, i: nat): string
    requires z != [] && i < 4096
  {
    [Letter(i / 256), Letter(i / 16 % 16), Letter(i % 16), 'd' + (BucketOf(z) / 256) as char, z[|z| - 1]]
  }

  /** Every bucket that holds a name at all holds 4096 of five letters. */
  lemma {:induction false} NamesAbound(z: string, i: nat, j: nat)
    requires z != [] && i < 4096 && j < 4096
    ensures BucketOf(Neighbour(z, i)) == BucketOf(z)
    ensures i != j ==> Neighbour(z, i) != Neighbour(z, j)
  {
    NeighbourIsClose(z, i);
    if i != j { DigitsDiffer(i, j); }
  }

  lemma {:induction false} NeighbourIsClose(z: string, i: nat)
    requires z != [] && i < 4096
    ensures BucketOf(Neighbour(z, i)) == BucketOf(z)
  {
    hide HashOf, HashRound;
    var n, b := Neighbour(z, i), BucketOf(z);
    LastLetter(z, 0);
    SplitBucket(HashOf(z, 0));
    var h := ThreeFirst(n[0], n[1], n[2], [n[3], n[4]]);
    assert n == [n[0], n[1], n[2]] + [n[3], n[4]];
    LastTwo(h, n[3], n[4]);
    assert Byte(n[3]) == 100 + b / 256;
    Remainder(64 * h + 25, b);
  }

  lemma {:induction false} SplitBucket(h: nat)
    ensures h % 1024 == 256 * (h % 1024 / 256) + h % 256
  {
    var q, u, v := h / 1024, h % 1024 / 256, h % 1024 % 256;
    assert h == 256 * (4 * q + u) + v;
    LowByte(4 * q + u, v);
  }

  lemma {:induction false} LowByte(q: nat, v: nat)
    requires v < 256
    ensures (256 * q + v) % 256 == v
  {
  }

  lemma {:induction false} DigitsDiffer(i: nat, j: nat)
    requires i < 4096 && j < 4096 && i != j
    ensures i / 256 != j / 256 || i / 16 % 16 != j / 16 % 16 || i % 16 != j % 16
  {
    assert i == 256 * (i / 256) + 16 * (i / 16 % 16) + i % 16;
    assert j == 256 * (j / 256) + 16 * (j / 16 % 16) + j % 16;
  }

  function EmptyTable(): (t: seq<Chain>)
    ensures |t| == MAX_AMOUNT && forall i :: 0 <= i < |t| ==> t[i] == [Node(i, Vacant, Null)]
  {
    seq(MAX_AMOUNT, i requires 0 <= i => [Node(i, Vacant, Null)])
  }

  function Shifted(r: Option<nat>, d: nat): Option<nat> {
    if r.None? then None else Some(r.value + d)
  }

  class HashTable {
    var data: seq<Chain>
    /** The address the next allocated node will have. */
    var next: nat

    constructor ()
      ensures data == EmptyTable() && next == MAX_AMOUNT
    {
      data, next := EmptyTable(), MAX_AMOUNT;
    }

    /** The position in its bucket of the node found for `key`. */
    method FindNodeByKey(key: string, texts: Texts) returns (r: Option<nat>)
      requires |data| == MAX_AMOUNT
      ensures r == Find(data[BucketOf(key)], texts, key)
    {
      hide HashOf, HashRound, EmptyTable;
      var hash := ElfHash(key);
      var chain := data[hash % MAX_AMOUNT];
      var i := 0;
      while i < |chain|
        invariant 0 <= i <= |chain|
        invariant Shifted(Find(chain[i..], texts, key), i) == Find(chain, texts, key)
      {
        var node := chain[i];
        assert chain[i..][1..] == chain[i + 1..];
        if node.content.Vacant? {
          return None;
        }
        if texts(node.content.key) == key {
          return Some(i);
        }
        i := i + 1;
      }
      r := None;
    }

    method InsertHashItem(text: string, key: KeyRef, row: nat)
      requires |data| == MAX_AMOUNT && data[BucketOf(text)] != []
      modifies this
      ensures data == old(data)[BucketOf(text) := Insert(old(data)[BucketOf(text)], old(next), key, row)]
      ensures next == old(next) + 1
    {
      var hash := ElfHash(text);
      var index := hash % MAX_AMOUNT;
      var chain := data[index];
      if chain[0].content.Vacant? {
        data := data[index := [Node(chain[0].id, Entry(key, row), Null)]];
      } else {
        var node, prev := 0, Null;
        while node + 1 < |chain|
          invariant 0 <= node < |chain|
          invariant prev == if node == 0 then Null else At(chain[node - 1].id)
        {
          prev := At(chain[node].id);
          node := node + 1;
        }
        data := data[index := chain + [Node(next, Entry(key, row), prev)]];
      }
      next := next + 1;
    }

    /** `ok` is false where the C code works on freed memory. */
    method RemoveHashItemByNode(index: nat, p: nat) returns (ok: bool)
      requires index < |data| && p < |data[index]|
      modifies this`data
      ensures ok == Remove(old(data)[index], p).Some?
      ensures data == if ok then old(data)[index := Remove(old(data)[index], p).value] else old(data)
    {
      var chain := data[index];
      var node := chain[p];
      if node.prev.Null? {
        if p + 1 < |chain| {
          var successor := chain[p + 1];
          var taken := chain[..p] + [node.(content := successor.content)];
          data := data[index := taken + Relink(chain[p + 2..], At(node.id))];
        } else {
          data := data[index := chain[p := node.(content := Vacant)]];
        }
      } else {
        var j := Position(chain[..p], node.prev.id);
        if j == p {
          return false;
        }
        data := data[index := chain[..j + 1] + Relink(chain[p + 1..], node.prev)];
      }
      ok := true;
    }
  }
}
