/** Octets, and numbers written in octets with the lowest one first. */
module Octets {

  type Octet = x: int | 0 <= x < 256

  type Bytes = seq<Octet>

  function Little(v: nat, n: nat): (b: Bytes)
    ensures |b| == n
  {
    if n == 0 then [] else [v % 256] + Little(v / 256, n - 1)
  }

  function FromLittle(b: Bytes): nat {
    if b == [] then 0 else b[0] + 256 * FromLittle(b[1..])
  }

  function Power(base: nat, n: nat): nat {
    if n == 0 then 1 else base * Power(base, n - 1)
  }

  lemma {:induction false} PowerOfSum(base: nat, m: nat, n: nat)
    ensures Power(base, m + n) == Power(base, m) * Power(base, n)
    decreases m
  {
    if m > 0 {
      PowerOfSum(base, m - 1, n);
      assert base * (Power(base, m - 1) * Power(base, n)) == base * Power(base, m - 1) * Power(base, n);
    }
  }

  lemma {:induction false} LittleRoundTrip(v: nat, n: nat)
    requires v < Power(256, n)
    ensures FromLittle(Little(v, n)) == v
  {
    if n > 0 {
      LittleRoundTrip(v / 256, n - 1);
    }
  }

  lemma {:induction false} FromLittleIsSmall(b: Bytes)
    ensures FromLittle(b) < Power(256, |b|)
  {
    if b != [] { FromLittleIsSmall(b[1..]); }
  }

  lemma {:induction false} OneMore(a: Octet, v: nat, n: nat)
    ensures Little(a + 256 * v, n + 1) == [a] + Little(v, n)
  {
    Split(a, v);
    assert Little(a + 256 * v, n + 1) == [(a + 256 * v) % 256] + Little((a + 256 * v) / 256, n);
  }

  lemma {:induction false} Split(a: Octet, v: nat)
    ensures (a + 256 * v) % 256 == a && (a + 256 * v) / 256 == v
  {
  }

  lemma {:induction false} NoOctets()
    ensures Little(0, 0) == []
  {
  }

  /** The lowest octet comes first. */
  lemma {:induction false} LowestFirst(a: Octet, b: Octet, c: Octet, d: Octet)
    ensures Little(a + 0x100 * b + 0x1_0000 * c + 0x100_0000 * d, 4) == [a, b, c, d]
    ensures FromLittle([a, b, c, d]) == a + 0x100 * b + 0x1_0000 * c + 0x100_0000 * d
  {
    hide Little, FromLittle;
    var v := a + 0x100 * b + 0x1_0000 * c + 0x100_0000 * d;
    NoOctets();
    OneMore(d, 0, 0);
    OneMore(c, d, 1);
    OneMore(b, c + 0x100 * d, 2);
    OneMore(a, b + 0x100 * c + 0x1_0000 * d, 3);
    assert Power(256, 1) == 256 && Power(256, 2) == 0x1_0000 && Power(256, 3) == 0x100_0000;
    LittleRoundTrip(v, 4);
  }
}
