/**
 * Standard Base64 with `=` padding (section 4 of RFC 4648): the final step
 * of every licence maker (`base64.b64encode` in Python, `toString("base64")`
 * in Node), with a strict decoder as its inverse.
 */
module Base64 {
  import opened Wrappers
  import opened Bytes

  /** The character for a 6-bit value: A-Z, a-z, 0-9, '+', '/'. */
  function CharOf(v: nat): (c: char)
    requires v < 64
    ensures IsAlphabetChar(c) && ValueOf(c) == Some(v)
  {
    if v < 26 then ('A' as int + v) as char
    else if v < 52 then ('a' as int + (v - 26)) as char
    else if v < 62 then ('0' as int + (v - 52)) as char
    else if v == 62 then '+'
    else '/'
  }

  predicate IsAlphabetChar(c: char) {
    ('A' <= c <= 'Z') || ('a' <= c <= 'z') || ('0' <= c <= '9') || c == '+' || c == '/'
  }

  /** The 6-bit value of an alphabet character; None for anything else, '=' included. */
  function ValueOf(c: char): (r: Option<nat>)
    ensures r.Some? <==> IsAlphabetChar(c)
    ensures r.Some? ==> r.value < 64
  {
    if 'A' <= c <= 'Z' then Some(c as int - 'A' as int)
    else if 'a' <= c <= 'z' then Some(c as int - 'a' as int + 26)
    else if '0' <= c <= '9' then Some(c as int - '0' as int + 52)
    else if c == '+' then Some(62)
    else if c == '/' then Some(63)
    else None
  }

  /** Three bytes, 24 bits, as four characters. */
  function EncodeGroup(b0: byte, b1: byte, b2: byte): string {
    [CharOf(b0 / 4), CharOf(b0 % 4 * 16 + b1 / 16), CharOf(b1 % 16 * 4 + b2 / 64), CharOf(b2 % 64)]
  }

  /** One or two trailing bytes, zero-filled to whole characters and padded with '='. */
  function EncodeTail(b: seq<byte>): string
    requires 1 <= |b| <= 2
  {
    if |b| == 1 then [CharOf(b[0] / 4), CharOf(b[0] % 4 * 16), '=', '=']
    else [CharOf(b[0] / 4), CharOf(b[0] % 4 * 16 + b[1] / 16), CharOf(b[1] % 16 * 4), '=']
  }

  function Encode(b: seq<byte>): string {
    if |b| == 0 then ""
    else if |b| < 3 then EncodeTail(b)
    else EncodeGroup(b[0], b[1], b[2]) + Encode(b[3..])
  }

  /** Four characters back to one, two or three bytes; None when they are not a canonical quantum. */
  function DecodeQuantum(q: string, last: bool): Option<seq<byte>>
    requires |q| == 4
  {
    match (ValueOf(q[0]), ValueOf(q[1]), ValueOf(q[2]), ValueOf(q[3]))
    case (Some(v0), Some(v1), Some(v2), Some(v3)) =>
      Some([v0 * 4 + v1 / 16, v1 % 16 * 16 + v2 / 4, v2 % 4 * 64 + v3])
    case (Some(v0), Some(v1), Some(v2), None) =>
      if last && q[3] == '=' && v2 % 4 == 0 then Some([v0 * 4 + v1 / 16, v1 % 16 * 16 + v2 / 4]) else None
    case (Some(v0), Some(v1), None, None) =>
      if last && q[2] == '=' && q[3] == '=' && v1 % 16 == 0 then Some([v0 * 4 + v1 / 16]) else None
    case _ => None
  }

  /** Strict decoding: whole quanta only, '=' only at the very end, no other characters. */
  function Decode(s: string): Option<seq<byte>> {
    if s == [] then Some([])
    else if |s| < 4 then None
    else
      match (DecodeQuantum(s[..4], |s| == 4), Decode(s[4..]))
      case (Some(b), Some(rest)) => Some(b + rest)
      case _ => None
  }

  /** The output is four characters for every started group of three bytes. */
  lemma {:induction false} EncodeLength(b: seq<byte>)
    ensures |Encode(b)| == 4 * ((|b| + 2) / 3)
    ensures |Encode(b)| % 4 == 0
  {
    if |b| >= 3 {
      EncodeLength(b[3..]);
      GroupCount(|b|);
      assert |Encode(b)| == 4 + |Encode(b[3..])|;
    } else if |b| > 0 {
      assert |Encode(b)| == 4;
    }
    FourTimes((|b| + 2) / 3);
  }

  lemma FourTimes(k: nat)
    ensures (4 * k) % 4 == 0
  {
  }

  lemma GroupCount(n: nat)
    requires n >= 3
    ensures 4 + 4 * ((n - 3 + 2) / 3) == 4 * ((n + 2) / 3)
  {
  }

  /** Every output character is from the alphabet or is the pad '=', and pads come only last. */
  lemma {:induction false} EncodeAlphabet(b: seq<byte>)
    ensures forall i :: 0 <= i < |Encode(b)| ==> IsAlphabetChar(Encode(b)[i]) || Encode(b)[i] == '='
    ensures forall i :: 0 <= i < |Encode(b)| && Encode(b)[i] == '=' ==> i >= |Encode(b)| - 2
  {
    if |b| >= 3 {
      EncodeAlphabet(b[3..]);
      EncodeLength(b[3..]);
    }
  }

  /** Division by 16 with a known quotient and remainder. */
  lemma DivMod16(x: int, q: int, r: int)
    requires 0 <= r < 16 && x == q * 16 + r
    ensures x / 16 == q && x % 16 == r
  {
  }

  /** Division by 4 with a known quotient and remainder. */
  lemma DivMod4(x: int, q: int, r: int)
    requires 0 <= r < 4 && x == q * 4 + r
    ensures x / 4 == q && x % 4 == r
  {
  }

  lemma DecodeGroup(b0: byte, b1: byte, b2: byte, last: bool)
    ensures DecodeQuantum(EncodeGroup(b0, b1, b2), last) == Some([b0, b1, b2])
  {
    var v1, v2 := b0 % 4 * 16 + b1 / 16, b1 % 16 * 4 + b2 / 64;
    DivMod16(v1, b0 % 4, b1 / 16);
    DivMod4(v2, b1 % 16, b2 / 64);
    var q := EncodeGroup(b0, b1, b2);
    assert ValueOf(q[0]) == Some(b0 / 4) && ValueOf(q[1]) == Some(v1);
    assert ValueOf(q[2]) == Some(v2) && ValueOf(q[3]) == Some(b2 % 64);
  }

  lemma DecodeTail(b: seq<byte>)
    requires 1 <= |b| <= 2
    ensures DecodeQuantum(EncodeTail(b), true) == Some(b)
  {
    var q := EncodeTail(b);
    if |b| == 1 {
      DivMod16(b[0] % 4 * 16, b[0] % 4, 0);
      assert [b[0]] == b;
    } else {
      var v1, v2 := b[0] % 4 * 16 + b[1] / 16, b[1] % 16 * 4;
      DivMod16(v1, b[0] % 4, b[1] / 16);
      DivMod4(v2, b[1] % 16, 0);
      assert ValueOf(q[1]) == Some(v1) && ValueOf(q[2]) == Some(v2);
      assert [b[0], b[1]] == b;
    }
  }

  /** A quantum that decodes, followed by text that decodes, decodes to the concatenation. */
  lemma DecodeStep(q: string, rest: string, first: seq<byte>, more: seq<byte>)
    requires |q| == 4 && DecodeQuantum(q, rest == []) == Some(first) && Decode(rest) == Some(more)
    ensures Decode(q + rest) == Some(first + more)
  {
    var s := q + rest;
    assert s[..4] == q && s[4..] == rest;
  }

  /** Decoding the encoding of any byte string gives the bytes back. */
  lemma {:induction false} DecodeEncode(b: seq<byte>)
    ensures Decode(Encode(b)) == Some(b)
  {
    if |b| == 0 {
    } else if |b| < 3 {
      DecodeTail(b);
      DecodeStep(EncodeTail(b), [], b, []);
      assert b + [] == b;
    } else {
      var g, r := EncodeGroup(b[0], b[1], b[2]), Encode(b[3..]);
      assert [b[0], b[1], b[2]] + b[3..] == b;
      DecodeGroup(b[0], b[1], b[2], |r| == 0);
      DecodeEncode(b[3..]);
      DecodeStep(g, r, [b[0], b[1], b[2]], b[3..]);
    }
  }
}
