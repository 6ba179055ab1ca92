/** Domain names in a question (section 4.1.2 of RFC 1035): labels, each behind its length, up to a
    zero octet.  Compressed names, and labels that run past the end, are not read here. */
module DnsNames {
  import opened Octets
  import opened Options

  function FirstZero(b: Bytes): (n: nat)
    ensures n <= |b| && (n < |b| ==> b[n] == 0)
    ensures forall i :: 0 <= i < n ==> b[i] != 0
  {
    if b == [] || b[0] == 0 then 0 else 1 + FirstZero(b[1..])
  }

  function Text(b: Bytes): (s: string)
    ensures |s| == |b|
  {
    seq(|b|, i requires 0 <= i < |b| => b[i] as char)
  }

  /** The name, with dots between its labels. */
  function ParseName(b: Bytes): Option<string>
    decreases |b|
  {
    if b == [] || b[0] == 0 then Some("")
    else if b[0] > 63 || 1 + b[0] > FirstZero(b) then None
    else
      var first, rest := Text(b[1..1 + b[0]]), b[1 + b[0]..];
      if rest == [] || rest[0] == 0 then Some(first) else Behind(first + ".", ParseName(rest))
  }

  function Behind(front: string, name: Option<string>): Option<string> {
    if name.None? then None else Some(front + name.value)
  }

  /** What the label at `i` contributes. */
  lemma {:induction false} LabelAt(b: Bytes, i: nat)
    requires i < FirstZero(b)
    ensures b[i] > 63 || i + 1 + b[i] > FirstZero(b) ==> ParseName(b[i..]).None?
    ensures b[i] <= 63 && i + 1 + b[i] <= FirstZero(b) ==>
      var k := i + 1 + b[i];
      ParseName(b[i..]) ==
        if k == FirstZero(b) then Some(Text(b[i + 1..k])) else Behind(Text(b[i + 1..k]) + ".", ParseName(b[k..]))
  {
    Suffix(b, i);
    var k := i + 1 + b[i];
    if k <= FirstZero(b) {
      assert b[i..][1..1 + b[i]] == b[i + 1..k] && b[i..][1 + b[i]..] == b[k..];
    }
  }

  /** The loop over the labels. */
  method ParseUrlFromData(buffer: Bytes) returns (result: Option<string>)
    ensures result == ParseName(buffer)
  {
    hide ParseName, FirstZero;
    var len := FirstZero(buffer);
    var url, i := "", 0;
    assert buffer[0..] == buffer;
    NamesEnd(buffer);
    while i < len
      invariant 0 <= i <= len
      invariant ParseName(buffer) == Behind(url, ParseName(buffer[i..]))
    {
      ghost var before, start := url, i;
      LabelAt(buffer, i);
      if buffer[i] > 63 { return None; }
      var j := buffer[i];
      i := i + 1;
      if j > len - i { return None; }
      while j > 0
        invariant 0 <= j && i + j == start + 1 + buffer[start] <= len
        invariant start < i && url == before + Text(buffer[start + 1..i])
      {
        assert Text(buffer[start + 1..i + 1]) == Text(buffer[start + 1..i]) + [buffer[i] as char];
        url := url + [buffer[i] as char];
        i, j := i + 1, j - 1;
      }
      BehindNothing(url);
      if i < len {
        BehindTwice(before, Text(buffer[start + 1..i]) + ".", ParseName(buffer[i..]));
        assert before + (Text(buffer[start + 1..i]) + ".") == url + ".";
        url := url + ".";
      }
    }
    BehindNothing(url);
    return Some(url);
  }

  lemma {:induction false} NamesEnd(b: Bytes)
    ensures ParseName(b[FirstZero(b)..]) == Some("")
    ensures Behind("", ParseName(b)) == ParseName(b)
  {
    Suffix(b, FirstZero(b));
    if ParseName(b).Some? { assert "" + ParseName(b).value == ParseName(b).value; }
  }

  lemma {:induction false} BehindTwice(front: string, middle: string, name: Option<string>)
    ensures Behind(front, Behind(middle, name)) == Behind(front + middle, name)
  {
    if name.Some? { assert front + (middle + name.value) == (front + middle) + name.value; }
  }

  lemma {:induction false} BehindNothing(front: string)
    ensures Behind(front, Some("")) == Some(front)
  {
    assert front + "" == front;
  }

  lemma {:induction false} Suffix(b: Bytes, i: nat)
    requires i <= FirstZero(b)
    ensures FirstZero(b[i..]) == FirstZero(b) - i
    decreases i
  {
    if i > 0 {
      Suffix(b[1..], i - 1);
      assert b[1..][i - 1..] == b[i..];
    } else {
      assert b[0..] == b;
    }
  }

  // ---------------------------------------------------------------- writing a name

  /** The letters before the first dot. */
  function LabelLength(name: string): (n: nat)
    ensures n <= |name| && (n < |name| ==> name[n] == '.')
    ensures forall i :: 0 <= i < n ==> name[i] != '.'
  {
    if name == [] || name[0] == '.' then 0 else 1 + LabelLength(name[1..])
  }

  predicate IsOctets(s: string) { forall i :: 0 <= i < |s| ==> 0 < s[i] as int < 256 }

  /** Labels of 1 to 63 octets, with dots between them. */
  predicate IsName(name: string)
    decreases |name|
  {
    var n := LabelLength(name);
    1 <= n <= 63 && IsOctets(name[..n]) && (n < |name| ==> IsName(name[n + 1..]))
  }

  function Codes(s: string): (b: Bytes)
    requires IsOctets(s)
    ensures |b| == |s| && forall i :: 0 <= i < |b| ==> b[i] != 0
  {
    seq(|s|, i requires 0 <= i < |s| => s[i] as int)
  }

  function EncodeName(name: string): (b: Bytes)
    requires IsName(name)
    ensures |b| == |name| + 1 && forall i :: 0 <= i < |b| ==> b[i] != 0
    decreases |name|
  {
    var n := LabelLength(name);
    [n] + Codes(name[..n]) + if n == |name| then [] else EncodeName(name[n + 1..])
  }

  lemma {:induction false} NoZeroBefore(b: Bytes, after: Bytes)
    requires forall i :: 0 <= i < |b| ==> b[i] != 0
    ensures FirstZero(b + [0] + after) == |b|
  {
    if b == [] {
      assert b + [0] + after == [0] + after;
    } else {
      assert (b + [0] + after)[1..] == b[1..] + [0] + after;
      NoZeroBefore(b[1..], after);
    }
  }

  lemma {:induction false} TextOfCodes(s: string)
    requires IsOctets(s)
    ensures Text(Codes(s)) == s
  {
  }

  /** The octets of a name, label by label. */
  lemma {:induction false} Pieces(name: string, after: Bytes)
    requires IsName(name)
    ensures var b, n := EncodeName(name) + [0] + after, LabelLength(name);
      && FirstZero(b) == |name| + 1 && b[0] == n && 1 + n <= |b| && Text(b[1..1 + n]) == name[..n]
      && (n < |name| ==> b[1 + n..] == EncodeName(name[n + 1..]) + [0] + after)
  {
    hide FirstZero, Text;
    var n := LabelLength(name);
    NoZeroBefore(EncodeName(name), after);
    TextOfCodes(name[..n]);
    Slices(n, Codes(name[..n]), if n == |name| then [] else EncodeName(name[n + 1..]), [0] + after);
    assert EncodeName(name) + [0] + after == EncodeName(name) + ([0] + after);
    if n < |name| { assert EncodeName(name[n + 1..]) + [0] + after == EncodeName(name[n + 1..]) + ([0] + after); }
  }

  lemma {:induction false} Slices(n: Octet, x: Bytes, y: Bytes, z: Bytes)
    ensures var b := [n] + x + y + z; b[0] == n && b[1..1 + |x|] == x && b[1 + |x|..] == y + z
  {
  }

  /** A name put into a question is read back, whatever follows its zero octet. */
  lemma {:induction false} NameRoundTrip(name: string, after: Bytes)
    requires IsName(name)
    ensures ParseName(EncodeName(name) + [0] + after) == Some(name)
    decreases |name|
  {
    hide ParseName, EncodeName, FirstZero;
    var n := LabelLength(name);
    var b := EncodeName(name) + [0] + after;
    Pieces(name, after);
    LabelAt(b, 0);
    assert b[0..] == b;
    if n == |name| {
      assert name[..n] == name;
    } else {
      NameRoundTrip(name[n + 1..], after);
      assert name == name[..n] + "." + name[n + 1..];
    }
  }

  /** No octet of a label is a dot. */
  predicate Dotless(b: Bytes)
    decreases |b|
  {
    b != [] && 0 < b[0] < |b| ==> '.' !in Text(b[1..1 + b[0]]) && Dotless(b[1 + b[0]..])
  }

  lemma {:induction false} LabelEnds(first: string, after: string)
    requires '.' !in first && (after == "" || after[0] == '.')
    ensures LabelLength(first + after) == |first|
  {
    if first == "" {
      assert first + after == after;
    } else {
      assert (first + after)[1..] == first[1..] + after;
      LabelEnds(first[1..], after);
    }
  }

  lemma {:induction false} CodesOfText(b: Bytes)
    requires forall i :: 0 <= i < |b| ==> b[i] != 0
    ensures IsOctets(Text(b)) && Codes(Text(b)) == b
  {
  }

  lemma {:induction false} EncodeJoined(first: string, after: string)
    requires 1 <= |first| <= 63 && '.' !in first && IsOctets(first) && IsName(after)
    ensures var name := first + "." + after;
      IsName(name) && EncodeName(name) == [|first|] + Codes(first) + EncodeName(after)
  {
    var name := first + "." + after;
    LabelEnds(first, "." + after);
    assert name == first + ("." + after);
    assert name[..|first|] == first && name[|first| + 1..] == after;
  }

  lemma {:induction false} EncodeSingle(first: string)
    requires 1 <= |first| <= 63 && '.' !in first && IsOctets(first)
    ensures IsName(first) && EncodeName(first) == [|first|] + Codes(first)
  {
    LabelEnds(first, "");
    assert first + "" == first && first[..|first|] == first;
  }

  /** The other way round: without dots inside labels the name that is read determines the octets. */
  lemma {:induction false} ParsedIsEncoded(b: Bytes, name: string)
    requires ParseName(b) == Some(name) && name != "" && Dotless(b)
    ensures IsName(name) && EncodeName(name) == b[..FirstZero(b)]
    decreases |b|
  {
    hide FirstZero, IsName, EncodeName, ParseName;
    assert b[0..] == b && (FirstZero(b) > 0) by { NothingIsEmpty(b); }
    LabelAt(b, 0);
    var n := b[0];
    var k := 1 + n;
    var first := Text(b[1..k]);
    CodesOfText(b[1..k]);
    if k == FirstZero(b) {
      EncodeSingle(first);
      assert b[..k] == [n] + b[1..k];
    } else {
      Suffix(b, k);
      NamesAreNotEmpty(b[k..]);
      var tail := ParseName(b[k..]).value;
      ParsedIsEncoded(b[k..], tail);
      EncodeJoined(first, tail);
      assert b[..FirstZero(b)] == [n] + b[1..k] + b[k..][..FirstZero(b[k..])];
    }
  }

  lemma {:induction false} NothingIsEmpty(b: Bytes)
    requires ParseName(b) != Some("")
    ensures FirstZero(b) > 0
  {
  }

  lemma {:induction false} NamesAreNotEmpty(b: Bytes)
    requires b != [] && b[0] != 0 && ParseName(b).Some?
    ensures ParseName(b).value != ""
  {
  }

  /** With dots inside labels it does not. */
  lemma {:induction false} DotsAreConfused()
    ensures ParseName([3, 97, 46, 98, 0]) == ParseName([1, 97, 1, 98, 0]) == Some("a.b")
  {
    var b: Bytes, c: Bytes := [3, 97, 46, 98, 0], [1, 97, 1, 98, 0];
    assert FirstZero(b) == 4 && FirstZero(c) == 4 && b[0..] == b && c[0..] == c;
    LabelAt(b, 0);
    LabelAt(c, 0);
    LabelAt(c, 2);
    assert Text(b[1..4]) == "a.b" && Text(c[1..2]) == "a" && Text(c[3..4]) == "b";
    assert "a" + "." + "b" == "a.b";
  }

  lemma {:induction false} LastLetterOfName(name: string)
    requires IsName(name)
    ensures var c := name[|name| - 1]; c != '.' && 0 < c as int < 256
    decreases |name|
  {
    var n := LabelLength(name);
    if n < |name| { LastLetterOfName(name[n + 1..]); } else { assert name[..n] == name; }
  }
}
