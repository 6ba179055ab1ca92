/** IPv4 addresses as text: the printer of the answer loop and the reader of the reply builder. */
module DnsAddress {

  import opened Octets

  /** What "%u" prints. */
  function Decimal(n: nat): (s: string)
    ensures |s| > 0 && forall c :: c in s ==> IsDigit(c)
  {
    if n < 10 then [Digit(n)] else Decimal(n / 10) + [Digit(n % 10)]
  }

  function Digit(d: int): (c: char)
    requires 0 <= d < 10
    ensures IsDigit(c) && DigitValue(c) == d
  {
    ('0' as int + d) as char
  }

  predicate IsDigit(c: char) { '0' <= c <= '9' }

  predicate IsSpace(c: char) {
    c == ' ' || c == '\t' || c == '\n' || c == '\r' || c as int == 11 || c as int == 12
  }

  function DigitValue(c: char): int { c as int - '0' as int }

  /** The octets in decimal, separated by dots. */
  function Print(data: Bytes): string {
    if data == [] then "" else if |data| == 1 then Decimal(data[0])
    else Decimal(data[0]) + "." + Print(data[1..])
  }

  lemma {:induction false} PrintFrom(data: Bytes, j: nat)
    requires 1 <= j <= |data|
    ensures Print(data[j - 1..]) == Decimal(data[j - 1]) + (if j == |data| then "" else ".") + Print(data[j..])
  {
    hide Decimal;
    assert data[j - 1..][1..] == data[j..];
  }

  /** The printing loop of the A branch. */
  method PrintAddress(data: Bytes) returns (result: string)
    ensures result == Print(data)
  {
    hide Decimal, Print;
    result := "";
    var j := 1;
    assert data[0..] == data;
    while j <= |data|
      invariant 1 <= j <= |data| + 1
      invariant result + Print(data[j - 1..]) == Print(data)
    {
      PrintFrom(data, j);
      ghost var before := result;
      result := result + Decimal(data[j - 1]);
      if j != |data| {
        result := result + ".";
      }
      assert before + Print(data[j - 1..]) == result + Print(data[j..]);
      j := j + 1;
    }
    assert data[j - 1..] == [];
    NothingIsPrinted();
  }

  lemma {:induction false} NothingIsPrinted()
    ensures Print([]) == ""
  {
  }

  /** The value of the decimal digits a text starts with, after `total`. */
  function DigitsValue(s: string, total: int): int
    decreases |s|
  {
    if s == [] || !IsDigit(s[0]) then total else DigitsValue(s[1..], 10 * total + DigitValue(s[0]))
  }

  function SkipSpaces(s: string): string {
    if s == [] || !IsSpace(s[0]) then s else SkipSpaces(s[1..])
  }

  function AtoL(s: string): int {
    var t := SkipSpaces(s);
    if t != [] && t[0] == '-' then -DigitsValue(t[1..], 0)
    else if t != [] && t[0] == '+' then DigitsValue(t[1..], 0)
    else DigitsValue(t, 0)
  }

  method ReadLong(s: string) returns (value: int)
    ensures value == AtoL(s)
  {
    var rest := s;
    var total, sign := 0, '+';
    while rest != [] && IsSpace(rest[0])
      invariant SkipSpaces(rest) == SkipSpaces(s)
    {
      rest := rest[1..];
    }
    if rest != [] && (rest[0] == '-' || rest[0] == '+') {
      sign := rest[0];
      rest := rest[1..];
    }
    ghost var digits := rest;
    while rest != [] && IsDigit(rest[0])
      invariant DigitsValue(rest, total) == DigitsValue(digits, 0)
      decreases |rest|
    {
      total := 10 * total + DigitValue(rest[0]);
      rest := rest[1..];
    }
    value := if sign == '-' then -total else total;
  }

  /** The text after the first dot, if there is one. */
  function AfterDot(s: string): (r: (bool, string))
    ensures r.0 ==> |r.1| < |s|
  {
    if s == [] then (false, []) else if s[0] == '.' then (true, s[1..]) else AfterDot(s[1..])
  }

  /** The conversion to a character keeps the low eight bits. */
  function LowByte(v: int): Octet { v % 256 }

  function Zeros(k: nat): (r: Bytes)
    ensures |r| == k
  {
    if k == 0 then [] else [0] + Zeros(k - 1)
  }

  /** `k` octets read from dotted decimal; missing ones are zero. */
  function Read(s: string, k: nat): (r: Bytes)
    ensures |r| == k
    decreases k
  {
    if k == 0 then [] else
      var (more, rest) := AfterDot(s);
      [LowByte(AtoL(s))] + if more then Read(rest, k - 1) else Zeros(k - 1)
  }

  /** The reading loop of `inet_addr_t`. */
  method ReadAddress(s: string) returns (ipBytes: Bytes)
    ensures ipBytes == Read(s, 4)
  {
    ipBytes := [];
    var cp := s;
    var i := 0;
    while i < 4
      invariant 0 <= i <= 4
      invariant ipBytes + Read(cp, 4 - i) == Read(s, 4)
    {
      var value := ReadLong(cp);
      var (more, rest) := AfterDot(cp);
      ghost var before := ipBytes;
      ipBytes := ipBytes + [LowByte(value)];
      assert before + ([LowByte(value)] + if more then Read(rest, 3 - i) else Zeros(3 - i))
        == ipBytes + if more then Read(rest, 3 - i) else Zeros(3 - i);
      if !more {
        ipBytes := ipBytes + Zeros(3 - i);
        return;
      }
      cp := rest;
      i := i + 1;
    }
  }

  lemma {:induction false} DigitsOfConcat(s: string, t: string, total: int)
    requires forall c :: c in s ==> IsDigit(c)
    ensures DigitsValue(s + t, total) == DigitsValue(t, DigitsValue(s, total))
    decreases |s|
  {
    if s == [] {
      assert s + t == t;
    } else {
      assert (s + t)[1..] == s[1..] + t;
      DigitsOfConcat(s[1..], t, 10 * total + DigitValue(s[0]));
    }
  }

  lemma {:induction false} DecimalValue(n: nat)
    ensures DigitsValue(Decimal(n), 0) == n
  {
    if n >= 10 {
      DecimalValue(n / 10);
      DigitsOfConcat(Decimal(n / 10), [Digit(n % 10)], 0);
      assert [Digit(n % 10)][1..] == [];
    }
  }

  lemma {:induction false} ReadsItsNumber(n: nat, rest: string)
    requires rest == [] || rest[0] == '.'
    ensures AtoL(Decimal(n) + rest) == n
  {
    DecimalValue(n);
    DigitsOfConcat(Decimal(n), rest, 0);
    assert (Decimal(n) + rest)[0] == Decimal(n)[0];
    assert Decimal(n)[0] in Decimal(n);
  }

  /** Leading blanks and a sign count as in the C library; what does not fit an octet is reduced. */
  lemma {:induction false} SignIsRead(n: nat, rest: string)
    requires rest == [] || rest[0] == '.'
    ensures AtoL("-" + Decimal(n) + rest) == 0 - n && AtoL("+" + Decimal(n) + rest) == n
    ensures forall s :: AtoL(" " + s) == AtoL(s)
    ensures Read(Decimal(n), 1) == [n % 256]
  {
    var digits := Decimal(n) + rest;
    DecimalValue(n);
    DigitsOfConcat(Decimal(n), rest, 0);
    assert ("-" + Decimal(n) + rest)[1..] == digits && ("+" + Decimal(n) + rest)[1..] == digits;
    forall s ensures AtoL(" " + s) == AtoL(s) {
      assert (" " + s)[1..] == s;
    }
    DotFollows(Decimal(n), "");
    ReadsItsNumber(n, "");
    assert Decimal(n) + "" == Decimal(n);
  }

  lemma {:induction false} DotFollows(s: string, rest: string)
    requires '.' !in s
    ensures AfterDot(s + "." + rest) == (true, rest)
    ensures AfterDot(s) == (false, [])
  {
    if s == [] {
      assert (s + "." + rest)[1..] == rest;
    } else {
      assert (s + "." + rest)[1..] == s[1..] + "." + rest;
      DotFollows(s[1..], rest);
    }
  }

  lemma {:induction false} ReadsFirst(n: Octet, rest: string, k: nat)
    ensures Read(Decimal(n) + "." + rest, k + 1) == [n] + Read(rest, k)
    ensures Read(Decimal(n), 1) == [n]
  {
    var first := Decimal(n);
    DotFollows(first, rest);
    assert first + "." + rest == first + ("." + rest);
    ReadsItsNumber(n, "." + rest);
    ReadsItsNumber(n, "");
    assert first + "" == first;
  }

  /** Address round trip: octets printed into the cache are read back unchanged. */
  lemma {:induction false} AddressRoundTrip(data: Bytes)
    requires data != []
    ensures Read(Print(data), |data|) == data
  {
    var rest := data[1..];
    if rest == [] {
      ReadsFirst(data[0], "", 0);
    } else {
      AddressRoundTrip(rest);
      ReadsFirst(data[0], Print(rest), |rest|);
      assert Print(data) == Decimal(data[0]) + "." + Print(rest);
    }
    assert data == [data[0]] + rest;
  }

  /** A text in the cache is the banned one exactly when the address is all zeros. */
  lemma {:induction false} BannedIffZero(data: Bytes)
    requires |data| == 4
    ensures Print(data) == "0.0.0.0" <==> data == [0, 0, 0, 0]
  {
    AddressRoundTrip(data);
    AddressRoundTrip([0, 0, 0, 0]);
    ZeroText();
  }

  lemma {:induction false} ZeroText()
    ensures Print([0, 0, 0, 0]) == "0.0.0.0"
  {
    assert Decimal(0) == "0";
    var z: Bytes := [0, 0, 0, 0];
    assert z[1..] == [0, 0, 0] && z[1..][1..] == [0, 0] && z[1..][1..][1..] == [0];
    assert Print([0]) == "0";
    assert Print([0, 0]) == "0.0";
    assert Print([0, 0, 0]) == "0.0.0";
  }

  /** Numbers are decimal, with a dot between them. */
  lemma {:induction false} KnownTexts()
    ensures Print([192, 168]) == "192.168"
  {
    assert Decimal(1) == "1" && Decimal(19) == "1" + "9" && Decimal(16) == "1" + "6";
    assert Decimal(192) == "19" + "2" && Decimal(168) == "16" + "8";
    var a: Bytes := [192, 168];
    assert a[1..] == [168];
  }
}
