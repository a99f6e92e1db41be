/** Octets and their lowercase hexadecimal rendering (`hexdigest()` in Python, `"hex"` in Node). */
module Bytes {
  import opened Wrappers

  type byte = x: int | 0 <= x < 256

  const HexDigits: string := "0123456789abcdef"

  predicate IsLowerHex(c: char) {
    ('0' <= c <= '9') || ('a' <= c <= 'f')
  }

  predicate AllLowerHex(s: string) {
    forall i :: 0 <= i < |s| ==> IsLowerHex(s[i])
  }

  /** The value of one hexadecimal digit, either case; None for any other character. */
  function NibbleValue(c: char): (r: Option<nat>)
    ensures r.Some? ==> r.value < 16
  {
    if '0' <= c <= '9' then Some(c as int - '0' as int)
    else if 'a' <= c <= 'f' then Some(c as int - 'a' as int + 10)
    else if 'A' <= c <= 'F' then Some(c as int - 'A' as int + 10)
    else None
  }

  lemma NibbleRoundTrip(v: nat)
    requires v < 16
    ensures IsLowerHex(HexDigits[v]) && NibbleValue(HexDigits[v]) == Some(v)
  {
  }

  /** The lowercase digit of a value below 16. */
  function HexDigit(v: nat): (c: char)
    requires v < 16
    ensures IsLowerHex(c) && NibbleValue(c) == Some(v)
  {
    NibbleRoundTrip(v);
    HexDigits[v]
  }

  /** One byte as two lowercase hex digits, high nibble first. */
  function HexPair(x: byte): (s: string)
    ensures |s| == 2 && IsLowerHex(s[0]) && IsLowerHex(s[1])
    ensures NibbleValue(s[0]) == Some(x / 16) && NibbleValue(s[1]) == Some(x % 16)
  {
    [HexDigit(x / 16), HexDigit(x % 16)]
  }

  /** Every byte as its hex pair, in order. */
  function HexEncode(b: seq<byte>): (s: string)
    ensures |s| == 2 * |b|
    ensures AllLowerHex(s)
  {
    if b == [] then "" else HexPair(b[0]) + HexEncode(b[1..])
  }

  /** Reads hex digit pairs back into bytes; None on an odd length or a non-hex character. */
  function HexDecode(s: string): Option<seq<byte>> {
    if s == [] then Some([])
    else if |s| == 1 then None
    else
      match (NibbleValue(s[0]), NibbleValue(s[1]), HexDecode(s[2..]))
      case (Some(hi), Some(lo), Some(rest)) => Some([hi * 16 + lo] + rest)
      case _ => None
  }

  lemma {:induction false} HexRoundTrip(b: seq<byte>)
    ensures HexDecode(HexEncode(b)) == Some(b)
  {
    if b != [] {
      var p, r := HexPair(b[0]), HexEncode(b[1..]);
      assert [(b[0] / 16) * 16 + b[0] % 16] + b[1..] == b;
      PairFirst(p, r);
      HexRoundTrip(b[1..]);
    }
  }

  lemma PairFirst(p: string, rest: string)
    requires |p| == 2
    ensures var s := p + rest; |s| >= 2 && s[0] == p[0] && s[1] == p[1] && s[2..] == rest
  {
  }

  /** Rendering distributes over concatenation. */
  lemma {:induction false} HexEncodeAppend(a: seq<byte>, b: seq<byte>)
    ensures HexEncode(a + b) == HexEncode(a) + HexEncode(b)
  {
    if a != [] {
      assert (a + b)[0] == a[0] && (a + b)[1..] == a[1..] + b;
      HexEncodeAppend(a[1..], b);
      calc {
        HexEncode(a + b);
        HexPair(a[0]) + HexEncode(a[1..] + b);
        HexPair(a[0]) + (HexEncode(a[1..]) + HexEncode(b));
      }
    } else {
      assert a + b == b;
    }
  }

  /** A lowercase hex digit is the digit its value names. */
  lemma NibbleChar(c: char)
    requires IsLowerHex(c)
    ensures NibbleValue(c).Some? && HexDigit(NibbleValue(c).value) == c
  {
  }

  /** Every even-length lowercase hex string is the rendering of the bytes it decodes to. */
  lemma {:induction false} HexDecodeLower(s: string)
    requires |s| % 2 == 0 && AllLowerHex(s)
    ensures HexDecode(s).Some? && HexEncode(HexDecode(s).value) == s
  {
    if s != [] {
      var x := LowerPair(s[0], s[1]);
      HexDecodeLower(s[2..]);
      var rest := HexDecode(s[2..]).value;
      var t := [s[0], s[1]] + s[2..];
      assert s == t;
      HexDecodeStep(s[0], s[1], s[2..], rest);
      assert HexDecode(s) == Some([x] + rest);
      HexEncodeStep(x, rest);
      assert HexEncode([x] + rest) == t;
    }
  }

  /** Two digits that decode, then text that decodes, decode to the byte followed by the rest. */
  lemma HexDecodeStep(c0: char, c1: char, r: string, rest: seq<byte>)
    requires NibbleValue(c0).Some? && NibbleValue(c1).Some? && HexDecode(r) == Some(rest)
    ensures HexDecode([c0, c1] + r) == Some([NibbleValue(c0).value * 16 + NibbleValue(c1).value] + rest)
  {
    var s := [c0, c1] + r;
    assert s[0] == c0 && s[1] == c1 && s[2..] == r;
  }

  lemma HexEncodeStep(x: byte, rest: seq<byte>)
    ensures HexEncode([x] + rest) == HexPair(x) + HexEncode(rest)
  {
    var b := [x] + rest;
    assert b[0] == x && b[1..] == rest;
  }

  /** Two lowercase hex digits are the pair of the byte they spell. */
  lemma LowerPair(c0: char, c1: char) returns (x: byte)
    requires IsLowerHex(c0) && IsLowerHex(c1)
    ensures NibbleValue(c0).Some? && NibbleValue(c1).Some?
    ensures x == NibbleValue(c0).value * 16 + NibbleValue(c1).value
    ensures HexPair(x) == [c0, c1]
  {
    NibbleChar(c0);
    NibbleChar(c1);
    var hi, lo := NibbleValue(c0).value, NibbleValue(c1).value;
    x := hi * 16 + lo;
    assert x / 16 == hi && x % 16 == lo;
  }
}
