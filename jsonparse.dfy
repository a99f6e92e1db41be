/**
 * A reader for the flat objects that `Json` writes. It accepts JSON
 * whitespace between tokens and every escape of section 7 of RFC 8259, so one
 * reader inverts all three layouts and both escapings; it is the partner that
 * shows the serialiser loses nothing.
 */
module JsonParse {
  import opened Wrappers
  import opened Bytes
  import opened Json

  /** Whitespace between JSON tokens (section 2 of RFC 8259). */
  predicate IsWs(c: char) {
    c == ' ' || c == '\t' || c == '\n' || c == '\r'
  }

  predicate AllWs(s: string) {
    forall i :: 0 <= i < |s| ==> IsWs(s[i])
  }

  function SkipWs(s: string): (r: string)
    ensures |r| <= |s|
  {
    if s != [] && IsWs(s[0]) then SkipWs(s[1..]) else s
  }

  /** The value of four hex digits, either case. */
  function Hex4Value(s: string): Option<nat>
    requires |s| >= 4
  {
    match (NibbleValue(s[0]), NibbleValue(s[1]), NibbleValue(s[2]), NibbleValue(s[3]))
    case (Some(a), Some(b), Some(c), Some(d)) => Some(((a * 16 + b) * 16 + c) * 16 + d)
    case _ => None
  }

  /** The character after a backslash, for the two-character escapes. */
  function Unescape(e: char): Option<char> {
    if e == '"' then Some('"')
    else if e == '\\' then Some('\\')
    else if e == '/' then Some('/')
    else if e == 'b' then Some('\U{8}')
    else if e == 'f' then Some('\U{c}')
    else if e == 'n' then Some('\n')
    else if e == 'r' then Some('\r')
    else if e == 't' then Some('\t')
    else None
  }

  /**
   * The four hex digits after `\u`, and a second `\uXXXX` when the first is a
   * high surrogate; the pair is combined into one scalar value. A lone
   * surrogate is rejected.
   */
  function ParseUnicodeEscape(s: string): (r: Option<(char, string)>)
    ensures r.Some? ==> |r.value.1| < |s|
  {
    if |s| < 4 then None
    else match Hex4Value(s[..4])
      case None => None
      case Some(n) =>
        if 0xD800 <= n < 0xDC00 then
          if |s| >= 10 && s[4] == '\\' && s[5] == 'u' then
            match Hex4Value(s[6..10])
            case Some(lo) =>
              if 0xDC00 <= lo < 0xE000 then Some(((0x10000 + (n - 0xD800) * 1024 + (lo - 0xDC00)) as char, s[10..]))
              else None
            case None => None
          else None
        else if 0xDC00 <= n < 0xE000 then None
        else Some((n as char, s[4..]))
  }

  /** One character of a string literal's body, plain or escaped; None at the closing quote and on malformed text. */
  function ParseChar(s: string): (r: Option<(char, string)>)
    ensures r.Some? ==> |r.value.1| < |s|
  {
    if s == [] || s[0] == '"' || s[0] as int < 0x20 then None
    else if s[0] != '\\' then Some((s[0], s[1..]))
    else if |s| < 2 then None
    else if s[1] == 'u' then ParseUnicodeEscape(s[2..])
    else match Unescape(s[1])
      case Some(c) => Some((c, s[2..]))
      case None => None
  }

  /** The body of a string literal up to and including its closing quote. */
  function ParseStringBody(s: string): (r: Option<(string, string)>)
    ensures r.Some? ==> |r.value.1| < |s|
    decreases |s|
  {
    if s != [] && s[0] == '"' then Some(("", s[1..]))
    else match ParseChar(s)
      case None => None
      case Some((c, rest)) =>
        match ParseStringBody(rest)
        case None => None
        case Some((t, after)) => Some(([c] + t, after))
  }

  /** A string literal after optional whitespace. */
  function ParseString(s: string): (r: Option<(string, string)>)
    ensures r.Some? ==> |r.value.1| < |s|
  {
    var t := SkipWs(s);
    if t != [] && t[0] == '"' then ParseStringBody(t[1..]) else None
  }

  /** The items of a list after its first item has started, through the closing bracket. */
  function ParseItems(s: string): (r: Option<(seq<string>, string)>)
    ensures r.Some? ==> |r.value.1| < |s|
    decreases |s|
  {
    match ParseString(s)
    case None => None
    case Some((x, rest)) =>
      var t := SkipWs(rest);
      if t != [] && t[0] == ']' then Some(([x], t[1..]))
      else if t != [] && t[0] == ',' then
        match ParseItems(t[1..])
        case None => None
        case Some((xs, after)) => Some(([x] + xs, after))
      else None
  }

  /** A value after optional whitespace: a string or a list of strings. */
  function ParseValue(s: string): (r: Option<(Value, string)>)
    ensures r.Some? ==> |r.value.1| < |s|
  {
    var t := SkipWs(s);
    if t != [] && t[0] == '"' then
      match ParseStringBody(t[1..])
      case None => None
      case Some((x, rest)) => Some((Str(x), rest))
    else if t != [] && t[0] == '[' then
      var u := SkipWs(t[1..]);
      if u != [] && u[0] == ']' then Some((StrList([]), u[1..]))
      else match ParseItems(u)
        case None => None
        case Some((xs, rest)) => Some((StrList(xs), rest))
    else None
  }

  /** The members of an object after its first member has started, through the closing brace. */
  function ParseMembers(s: string): (r: Option<(Object, string)>)
    ensures r.Some? ==> |r.value.1| < |s|
    decreases |s|
  {
    match ParseString(s)
    case None => None
    case Some((k, rest)) =>
      var t := SkipWs(rest);
      if t == [] || t[0] != ':' then None
      else match ParseValue(t[1..])
        case None => None
        case Some((v, rest2)) =>
          var u := SkipWs(rest2);
          if u != [] && u[0] == '}' then Some(([Member(k, v)], u[1..]))
          else if u != [] && u[0] == ',' then
            match ParseMembers(u[1..])
            case None => None
            case Some((ms, after)) => Some(([Member(k, v)] + ms, after))
          else None
  }

  /** A whole document: one object, with nothing but whitespace around it. */
  function ParseDocument(text: string): Option<Object> {
    var t := SkipWs(text);
    if t == [] || t[0] != '{' then None
    else
      var u := SkipWs(t[1..]);
      if u != [] && u[0] == '}' then (if SkipWs(u[1..]) == [] then Some([]) else None)
      else match ParseMembers(u)
        case None => None
        case Some((obj, rest)) => if SkipWs(rest) == [] then Some(obj) else None
  }

  // ---------------------------------------------------------------------------------------------
  // Round trip
  // ---------------------------------------------------------------------------------------------

  lemma {:induction false} SkipWsOver(ws: string, t: string)
    requires AllWs(ws)
    ensures SkipWs(ws + t) == SkipWs(t)
  {
    if ws != [] {
      assert (ws + t)[1..] == ws[1..] + t;
      SkipWsOver(ws[1..], t);
    } else {
      assert ws + t == t;
    }
  }

  lemma IndentIsWs(l: Layout, level: nat)
    ensures AllWs(Indent(l, level))
  {
  }

  lemma Hex4RoundTrip(n: nat, rest: string)
    requires n < 0x10000
    ensures Hex4Value(UnicodeEscape(n)[2..] + rest) == Some(n)
  {
    var q1 := n / 16;
    var q2 := q1 / 16;
    var q3 := q2 / 16;
    assert n == q1 * 16 + n % 16 && q1 == q2 * 16 + q1 % 16 && q2 == q3 * 16 + q2 % 16;
    var h := UnicodeEscape(n)[2..] + rest;
    assert h[0] == HexDigit(q3) && h[1] == HexDigit(q2 % 16) && h[2] == HexDigit(q1 % 16) && h[3] == HexDigit(n % 16);
  }

  /** A `\uXXXX` escape of a value outside the surrogate range reads back as that character. */
  lemma UnicodeEscapeRoundTrip(c: char, rest: string)
    requires c as int < 0x10000
    ensures ParseChar(UnicodeEscape(c as int) + rest) == Some((c, rest))
  {
    var s := UnicodeEscape(c as int) + rest;
    Hex4RoundTrip(c as int, s[6..]);
    assert s[2..] == UnicodeEscape(c as int)[2..] + rest;
    assert s[2..][..4] == UnicodeEscape(c as int)[2..];
    Hex4RoundTrip(c as int, []);
    assert UnicodeEscape(c as int)[2..] + [] == UnicodeEscape(c as int)[2..];
  }

  /** The surrogate pair of a character above U+FFFF, and how it recombines. */
  lemma SurrogateArithmetic(cp: int)
    requires 0x10000 <= cp <= 0x10FFFF
    ensures cp == 0x10000 + (HighSurrogate(cp) - 0xD800) * 1024 + (LowSurrogate(cp) - 0xDC00)
  {
    var v := cp - 0x10000;
    assert HighSurrogate(cp) - 0xD800 == v / 1024 && LowSurrogate(cp) - 0xDC00 == v % 1024;
  }

  /** `\uHHHH\uLLLL` with a high and a low surrogate reads back as the character they encode. */
  lemma PairEscapeRoundTrip(hi: nat, lo: nat, rest: string)
    requires 0xD800 <= hi < 0xDC00 && 0xDC00 <= lo < 0xE000
    ensures ParseUnicodeEscape(UnicodeEscape(hi)[2..] + UnicodeEscape(lo) + rest)
      == Some(((0x10000 + (hi - 0xD800) * 1024 + (lo - 0xDC00)) as char, rest))
  {
    var e1, e2 := UnicodeEscape(hi), UnicodeEscape(lo);
    SplitPair(e1[2..], e2, rest);
    Hex4RoundTrip(hi, []);
    Hex4RoundTrip(lo, []);
  }

  lemma SplitPair(x: string, y: string, rest: string)
    requires |x| == 4 && |y| == 6
    ensures var t := x + y + rest;
      && t[..4] == x + [] && t[4] == y[0] && t[5] == y[1]
      && t[6..10] == y[2..] + [] && t[10..] == rest
  {
    var t := x + y + rest;
    assert t[6..10] == y[2..];
  }

  /** `ensure_ascii=True` writes a character above U+FFFF as the escapes of its two surrogates. */
  lemma SurrogateEscape(c: char) returns (hi: nat, lo: nat)
    requires c as int >= 0x10000
    ensures 0xD800 <= hi < 0xDC00 && 0xDC00 <= lo < 0xE000
    ensures c as int == 0x10000 + (hi - 0xD800) * 1024 + (lo - 0xDC00)
    ensures EscapeChar(AsciiOnly, c) == UnicodeEscape(hi) + UnicodeEscape(lo)
  {
    var cp := c as int;
    hi, lo := HighSurrogate(cp), LowSurrogate(cp);
    SurrogateArithmetic(cp);
    assert ShortEscape(c) == None;
    assert EscapeChar(AsciiOnly, c) == SurrogateEscapes(cp);
  }

  /** A surrogate pair written by `ensure_ascii=True` reads back as the one character above U+FFFF. */
  lemma SurrogatePairRoundTrip(c: char, rest: string)
    requires c as int >= 0x10000
    ensures ParseChar(EscapeChar(AsciiOnly, c) + rest) == Some((c, rest))
  {
    var hi, lo := SurrogateEscape(c);
    var e1, e2 := UnicodeEscape(hi), UnicodeEscape(lo);
    DropTwo(e1, e2, rest);
    PairEscapeRoundTrip(hi, lo, rest);
  }

  lemma DropTwo(a: string, b: string, c: string)
    requires |a| >= 2
    ensures var s := a + b + c; s[0] == a[0] && s[1] == a[1] && s[2..] == a[2..] + b + c
  {
  }

  /** Every escaped character reads back as itself, under either escaping. */
  lemma EscapeCharRoundTrip(esc: Escaping, c: char, rest: string)
    ensures ParseChar(EscapeChar(esc, c) + rest) == Some((c, rest))
  {
    var cp := c as int;
    if ShortEscape(c).Some? {
    } else if cp < 0x20 {
      UnicodeEscapeRoundTrip(c, rest);
    } else if esc == Raw || cp <= 0x7E {
    } else if cp < 0x10000 {
      UnicodeEscapeRoundTrip(c, rest);
    } else {
      SurrogatePairRoundTrip(c, rest);
    }
  }

  /** The body of a quoted string reads back as the string, and the reader stops right after the closing quote. */
  lemma {:induction false} EscapeRoundTrip(esc: Escaping, s: string, rest: string)
    ensures ParseStringBody(Escape(esc, s) + "\"" + rest) == Some((s, rest))
  {
    if s == [] {
      assert Escape(esc, s) + "\"" + rest == "\"" + rest;
    } else {
      var e := EscapeChar(esc, s[0]);
      var tail := Escape(esc, s[1..]) + "\"" + rest;
      assert Escape(esc, s) + "\"" + rest == e + tail;
      EscapeCharRoundTrip(esc, s[0], tail);
      assert (e + tail)[0] == e[0];
      EscapeRoundTrip(esc, s[1..], rest);
      assert [s[0]] + s[1..] == s;
    }
  }

  /** A string literal, after any whitespace, reads back as the string. */
  lemma QuoteRoundTrip(esc: Escaping, ws: string, s: string, rest: string)
    requires AllWs(ws)
    ensures ParseString(ws + Quote(esc, s) + rest) == Some((s, rest))
  {
    var q := Quote(esc, s) + rest;
    calc {
      ParseString(ws + Quote(esc, s) + rest);
      { assert ws + Quote(esc, s) + rest == ws + q; }
      ParseString(ws + q);
      { SkipWsOver(ws, q); assert q[0] == '"'; assert SkipWs(q) == q; }
      ParseStringBody(q[1..]);
      { assert q[1..] == Escape(esc, s) + "\"" + rest; }
      ParseStringBody(Escape(esc, s) + "\"" + rest);
      { EscapeRoundTrip(esc, s, rest); }
      Some((s, rest));
    }
  }

  /** The reader leaves text that starts with a token character alone. */
  lemma SkipWsStop(t: string)
    requires t != [] && !IsWs(t[0])
    ensures SkipWs(t) == t
  {
  }

  lemma ItemsLast(s: string, x: string, after: string, rest: string)
    requires ParseString(s) == Some((x, after))
    requires SkipWs(after) == "]" + rest
    ensures ParseItems(s) == Some(([x], rest))
  {
    assert ("]" + rest)[1..] == rest;
  }

  lemma ItemsCons(s: string, x: string, after: string, xs: seq<string>, rest: string)
    requires ParseString(s) == Some((x, after))
    requires after != [] && after[0] == ','
    requires ParseItems(after[1..]) == Some((xs, rest))
    ensures ParseItems(s) == Some(([x] + xs, rest))
  {
    SkipWsStop(after);
  }

  /** Whitespace before a closing bracket is skipped up to the bracket. */
  lemma CloseSkip(w: string, bracket: string, rest: string)
    requires AllWs(w) && |bracket| == 1 && !IsWs(bracket[0])
    ensures SkipWs(w + bracket + rest) == bracket + rest
  {
    assert w + bracket + rest == w + (bracket + rest);
    SkipWsOver(w, bracket + rest);
    SkipWsStop(bracket + rest);
  }

  /** Every item separator is a comma followed by whitespace. */
  lemma SeparatorShape(l: Layout, level: nat)
    ensures |ItemSeparator(l, level)| >= 1 && ItemSeparator(l, level)[0] == ','
    ensures AllWs(ItemSeparator(l, level)[1..])
  {
    IndentIsWs(l, level);
    assert ItemSeparator(l, level)[1..] == if l == PySpaced then " " else Indent(l, level);
  }

  lemma Regroup(ws: string, q: string, sep: string, tail: string, close: string)
    requires |sep| >= 1
    ensures ws + (q + (sep + tail)) + close == ws + q + (sep + tail + close)
    ensures (sep + tail + close)[0] == sep[0]
    ensures (sep + tail + close)[1..] == sep[1..] + tail + close
  {
  }

  /**
   * The items of a list, after any whitespace, read back up to the closing
   * bracket that `close` leads to, and no further.
   */
  lemma {:induction false} ItemsRoundTrip(l: Layout, esc: Escaping, ws: string, items: seq<string>, close: string, rest: string)
    requires items != [] && AllWs(ws)
    requires SkipWs(close) == "]" + rest
    ensures ParseItems(ws + ItemsText(l, esc, items) + close) == Some((items, rest))
    decreases |items|
  {
    var q := Quote(esc, items[0]);
    if |items| == 1 {
      assert [items[0]] == items;
      assert ItemsText(l, esc, items) == q;
      QuoteRoundTrip(esc, ws, items[0], close);
      ItemsLast(ws + q + close, items[0], close, rest);
    } else {
      var sep := ItemSeparator(l, 2);
      var tail := ItemsText(l, esc, items[1..]);
      assert [items[0]] + items[1..] == items;
      assert ItemsText(l, esc, items) == q + (sep + tail);
      SeparatorShape(l, 2);
      Regroup(ws, q, sep, tail, close);
      QuoteRoundTrip(esc, ws, items[0], sep + tail + close);
      ItemsRoundTrip(l, esc, sep[1..], items[1..], close, rest);
      ItemsCons(ws + q + (sep + tail + close), items[0], sep + tail + close, items[1..], rest);
    }
  }

  lemma ValueString(s: string, t: string, x: string, rest: string)
    requires SkipWs(s) == t && t != [] && t[0] == '"'
    requires ParseStringBody(t[1..]) == Some((x, rest))
    ensures ParseValue(s) == Some((Str(x), rest))
  {
  }

  lemma ValueEmptyList(s: string, t: string, rest: string)
    requires SkipWs(s) == t && t != [] && t[0] == '['
    requires SkipWs(t[1..]) == "]" + rest
    ensures ParseValue(s) == Some((StrList([]), rest))
  {
    assert ("]" + rest)[1..] == rest;
  }

  lemma ValueList(s: string, t: string, items: seq<string>, rest: string)
    requires SkipWs(s) == t && t != [] && t[0] == '['
    requires SkipWs(t[1..]) != [] && SkipWs(t[1..])[0] == '"'
    requires ParseItems(SkipWs(t[1..])) == Some((items, rest))
    ensures ParseValue(s) == Some((StrList(items), rest))
  {
  }

  /** A string literal and a list of them both start with a double quote. */
  lemma ItemsTextStart(l: Layout, esc: Escaping, items: seq<string>)
    requires items != []
    ensures |ItemsText(l, esc, items)| > 0 && ItemsText(l, esc, items)[0] == '"'
  {
    assert Quote(esc, items[0])[0] == '"';
  }

  lemma Regroup5(ws: string, a: string, b: string, c: string, rest: string)
    ensures ws + ("[" + a + b + c + "]") + rest == ws + ("[" + (a + (b + (c + "]" + rest))))
  {
  }

  /** An opening bracket, whitespace and the items of a list read as that list. */
  lemma ListOpen(ws: string, w2: string, inner: string, items: seq<string>, rest: string)
    requires AllWs(ws) && AllWs(w2) && inner != [] && inner[0] == '"'
    requires ParseItems(inner) == Some((items, rest))
    ensures ParseValue(ws + ("[" + (w2 + inner))) == Some((StrList(items), rest))
  {
    var t := "[" + (w2 + inner);
    SkipWsOver(ws, t);
    SkipWsStop(t);
    assert t[1..] == w2 + inner;
    SkipWsOver(w2, inner);
    SkipWsStop(inner);
    ValueList(ws + t, t, items, rest);
  }

  /** A bracketed, whitespace-padded text whose items read back as `items` reads as that list. */
  lemma ListTextRoundTrip(ws: string, w2: string, body: string, w1: string, items: seq<string>, rest: string)
    requires AllWs(ws) && AllWs(w2) && body != [] && body[0] == '"'
    requires ParseItems(body + (w1 + "]" + rest)) == Some((items, rest))
    ensures ParseValue(ws + ("[" + w2 + body + w1 + "]") + rest) == Some((StrList(items), rest))
  {
    Regroup5(ws, w2, body, w1, rest);
    var inner := body + (w1 + "]" + rest);
    assert inner[0] == body[0];
    ListOpen(ws, w2, inner, items, rest);
  }

  /** Indentation before a closing bracket or brace is skipped up to it. */
  lemma IndentClose(l: Layout, level: nat, bracket: string, rest: string)
    requires |bracket| == 1 && !IsWs(bracket[0])
    ensures SkipWs(Indent(l, level) + bracket + rest) == bracket + rest
  {
    IndentIsWs(l, level);
    CloseSkip(Indent(l, level), bracket, rest);
  }

  /** The items of a non-empty list, with nothing before them, read back up to the closing bracket. */
  lemma ItemsFrom(l: Layout, esc: Escaping, items: seq<string>, close: string, rest: string)
    requires items != [] && SkipWs(close) == "]" + rest
    ensures ParseItems(ItemsText(l, esc, items) + close) == Some((items, rest))
  {
    NoPrefix(ItemsText(l, esc, items), close);
    ItemsRoundTrip(l, esc, "", items, close, rest);
  }

  /** The items of a non-empty list read back up to the closing bracket after their indentation. */
  lemma ItemsBody(l: Layout, esc: Escaping, items: seq<string>, rest: string)
    requires items != []
    ensures ParseItems(ItemsText(l, esc, items) + (Indent(l, 1) + "]" + rest)) == Some((items, rest))
  {
    IndentClose(l, 1, "]", rest);
    ItemsFrom(l, esc, items, Indent(l, 1) + "]" + rest, rest);
  }

  /** A non-empty list of strings, after any whitespace, reads back as itself. */
  lemma ListRoundTrip(l: Layout, esc: Escaping, ws: string, items: seq<string>, rest: string)
    requires items != [] && AllWs(ws)
    ensures ParseValue(ws + ValueText(l, esc, StrList(items)) + rest) == Some((StrList(items), rest))
  {
    var body := ItemsText(l, esc, items);
    ItemsTextStart(l, esc, items);
    ItemsBody(l, esc, items, rest);
    IndentIsWs(l, 2);
    assert ValueText(l, esc, StrList(items)) == "[" + Indent(l, 2) + body + Indent(l, 1) + "]";
    ListTextRoundTrip(ws, Indent(l, 2), body, Indent(l, 1), items, rest);
  }

  /** A string literal, after any whitespace, reads back as a string value. */
  lemma StringValueRoundTrip(esc: Escaping, ws: string, x: string, rest: string)
    requires AllWs(ws)
    ensures ParseValue(ws + Quote(esc, x) + rest) == Some((Str(x), rest))
  {
    var text := Quote(esc, x) + rest;
    assert ws + Quote(esc, x) + rest == ws + text;
    SkipWsOver(ws, text);
    assert text[0] == '"';
    SkipWsStop(text);
    assert text[1..] == Escape(esc, x) + "\"" + rest;
    EscapeRoundTrip(esc, x, rest);
    ValueString(ws + text, text, x, rest);
  }

  /** `[]`, after any whitespace, reads back as the empty list. */
  lemma EmptyListRoundTrip(ws: string, rest: string)
    requires AllWs(ws)
    ensures ParseValue(ws + "[]" + rest) == Some((StrList([]), rest))
  {
    var text := "[]" + rest;
    assert ws + "[]" + rest == ws + text;
    SkipWsOver(ws, text);
    SkipWsStop(text);
    assert text[1..] == "]" + rest;
    SkipWsStop(text[1..]);
    ValueEmptyList(ws + text, text, rest);
  }

  /** A value, after any whitespace, reads back as itself and the reader stops right after it. */
  lemma ValueRoundTrip(l: Layout, esc: Escaping, ws: string, v: Value, rest: string)
    requires AllWs(ws)
    ensures ParseValue(ws + ValueText(l, esc, v) + rest) == Some((v, rest))
  {
    match v
    case Str(x) =>
      StringValueRoundTrip(esc, ws, x, rest);
    case StrList(items) =>
      if items == [] {
        EmptyListRoundTrip(ws, rest);
      } else {
        ListRoundTrip(l, esc, ws, items, rest);
      }
  }

  /** `s` starts with the key of `m`, a colon and the value of `m`; `more` is what follows. */
  predicate ReadsMember(s: string, m: Member, more: string) {
    match ParseString(s)
    case None => false
    case Some((k, after)) =>
      var t := SkipWs(after);
      k == m.key && t != [] && t[0] == ':' && ParseValue(t[1..]) == Some((m.value, more))
  }

  lemma MemberLast(s: string, m: Member, more: string, rest: string)
    requires ReadsMember(s, m, more) && SkipWs(more) == "}" + rest
    ensures ParseMembers(s) == Some(([m], rest))
  {
    assert ("}" + rest)[1..] == rest;
  }

  lemma MemberCons(s: string, m: Member, more: string, ms: Object, rest: string)
    requires ReadsMember(s, m, more) && more != [] && more[0] == ','
    requires ParseMembers(more[1..]) == Some((ms, rest))
    ensures ParseMembers(s) == Some(([m] + ms, rest))
  {
    SkipWsStop(more);
  }

  /** The key separator is a colon, then whitespace. */
  lemma KeySeparatorShape(l: Layout)
    ensures |KeySeparator(l)| >= 1 && KeySeparator(l)[0] == ':'
    ensures AllWs(KeySeparator(l)[1..])
  {
  }

  lemma Regroup4(ws: string, q: string, ks: string, vt: string, more: string)
    requires |ks| >= 1
    ensures ws + (q + ks + vt) + more == ws + q + (ks + (vt + more))
    ensures (ks + (vt + more))[0] == ks[0]
    ensures (ks + (vt + more))[1..] == ks[1..] + vt + more
  {
  }

  /** One member, after any whitespace, reads back as itself. */
  lemma MemberRoundTrip(l: Layout, esc: Escaping, ws: string, m: Member, more: string)
    requires AllWs(ws)
    ensures ReadsMember(ws + MemberText(l, esc, m) + more, m, more)
  {
    var q := Quote(esc, m.key);
    var ks := KeySeparator(l);
    var vt := ValueText(l, esc, m.value);
    var after := ks + (vt + more);
    KeySeparatorShape(l);
    Regroup4(ws, q, ks, vt, more);
    QuoteRoundTrip(esc, ws, m.key, after);
    SkipWsStop(after);
    ValueRoundTrip(l, esc, ks[1..], m.value, more);
  }

  /** A member list starts with the double quote of its first key. */
  lemma MembersTextStart(l: Layout, esc: Escaping, obj: Object)
    requires obj != []
    ensures |MembersText(l, esc, obj)| > 0 && MembersText(l, esc, obj)[0] == '"'
  {
    assert Quote(esc, obj[0].key)[0] == '"';
    assert MemberText(l, esc, obj[0])[0] == '"';
  }

  /** A single member reads back up to the closing brace that `close` leads to. */
  lemma OneMemberRoundTrip(l: Layout, esc: Escaping, ws: string, obj: Object, close: string, rest: string)
    requires |obj| == 1 && AllWs(ws)
    requires SkipWs(close) == "}" + rest
    ensures ParseMembers(ws + MembersText(l, esc, obj) + close) == Some((obj, rest))
  {
    var mt := MemberText(l, esc, obj[0]);
    assert [obj[0]] == obj;
    assert MembersText(l, esc, obj) == mt;
    MemberRoundTrip(l, esc, ws, obj[0], close);
    MemberLast(ws + mt + close, obj[0], close, rest);
  }

  /** A first member, a separator and members that read back give the whole list back. */
  lemma MoreMembersRoundTrip(l: Layout, esc: Escaping, ws: string, obj: Object, close: string, rest: string)
    requires |obj| > 1 && AllWs(ws)
    requires ParseMembers(ItemSeparator(l, 1)[1..] + MembersText(l, esc, obj[1..]) + close) == Some((obj[1..], rest))
    ensures ParseMembers(ws + MembersText(l, esc, obj) + close) == Some((obj, rest))
  {
    var mt := MemberText(l, esc, obj[0]);
    var sep := ItemSeparator(l, 1);
    var tail := MembersText(l, esc, obj[1..]);
    assert [obj[0]] + obj[1..] == obj;
    assert MembersText(l, esc, obj) == mt + (sep + tail);
    SeparatorShape(l, 1);
    Regroup(ws, mt, sep, tail, close);
    MemberRoundTrip(l, esc, ws, obj[0], sep + tail + close);
    MemberCons(ws + mt + (sep + tail + close), obj[0], sep + tail + close, obj[1..], rest);
  }

  /**
   * The members of an object, after any whitespace, read back up to the
   * closing brace that `close` leads to, and no further.
   */
  lemma {:induction false} MembersRoundTrip(l: Layout, esc: Escaping, ws: string, obj: Object, close: string, rest: string)
    requires obj != [] && AllWs(ws)
    requires SkipWs(close) == "}" + rest
    ensures ParseMembers(ws + MembersText(l, esc, obj) + close) == Some((obj, rest))
    decreases |obj|
  {
    if |obj| == 1 {
      OneMemberRoundTrip(l, esc, ws, obj, close, rest);
    } else {
      SeparatorShape(l, 1);
      MembersRoundTrip(l, esc, ItemSeparator(l, 1)[1..], obj[1..], close, rest);
      MoreMembersRoundTrip(l, esc, ws, obj, close, rest);
    }
  }

  /** An opening brace, whitespace and the members of an object read as that object. */
  lemma DocumentOpen(w: string, inner: string, obj: Object, rest: string)
    requires AllWs(w) && inner != [] && inner[0] == '"'
    requires ParseMembers(inner) == Some((obj, rest)) && SkipWs(rest) == []
    ensures ParseDocument("{" + (w + inner)) == Some(obj)
  {
    var t := "{" + (w + inner);
    SkipWsStop(t);
    assert t[1..] == w + inner;
    SkipWsOver(w, inner);
    SkipWsStop(inner);
  }

  lemma Regroup6(a: string, b: string, c: string)
    ensures "{" + a + b + c + "}" == "{" + (a + (b + (c + "}" + "")))
  {
  }

  /** `{}` reads back as the empty object. */
  lemma EmptyDocumentRoundTrip()
    ensures ParseDocument("{}") == Some([])
  {
    SkipWsStop("{}");
    assert "{}"[1..] == "}";
    SkipWsStop("}");
    assert "}"[1..] == [];
  }

  /** A brace, whitespace, members that read back and whitespace before the closing brace read as the object. */
  lemma DocumentTextRoundTrip(w1: string, body: string, w0: string, obj: Object)
    requires AllWs(w1) && AllWs(w0) && body != [] && body[0] == '"'
    requires ParseMembers(body + (w0 + "}" + "")) == Some((obj, ""))
    ensures ParseDocument("{" + w1 + body + w0 + "}") == Some(obj)
  {
    Regroup6(w1, body, w0);
    var inner := body + (w0 + "}" + "");
    assert inner[0] == body[0];
    DocumentOpen(w1, inner, obj, "");
  }

  lemma NoPrefix(body: string, close: string)
    ensures "" + body + close == body + close
  {
  }

  /** The members of a non-empty object, with nothing before them, read back up to the closing brace. */
  lemma MembersFrom(l: Layout, esc: Escaping, obj: Object, close: string, rest: string)
    requires obj != [] && SkipWs(close) == "}" + rest
    ensures ParseMembers(MembersText(l, esc, obj) + close) == Some((obj, rest))
  {
    NoPrefix(MembersText(l, esc, obj), close);
    MembersRoundTrip(l, esc, "", obj, close, rest);
  }

  /** The members of a non-empty object read back up to the closing brace after their indentation. */
  lemma MembersBody(l: Layout, esc: Escaping, obj: Object)
    requires obj != []
    ensures ParseMembers(MembersText(l, esc, obj) + (Indent(l, 0) + "}" + "")) == Some((obj, ""))
  {
    IndentClose(l, 0, "}", "");
    MembersFrom(l, esc, obj, Indent(l, 0) + "}" + "", "");
  }

  /**
   * Every layout and escaping the issuers use is read back exactly: the
   * reader recovers the object, its member order and every string.
   */
  lemma DocumentRoundTrip(l: Layout, esc: Escaping, obj: Object)
    ensures ParseDocument(Serialize(l, esc, obj)) == Some(obj)
  {
    if obj == [] {
      EmptyDocumentRoundTrip();
    } else {
      var body := MembersText(l, esc, obj);
      MembersTextStart(l, esc, obj);
      MembersBody(l, esc, obj);
      IndentIsWs(l, 1);
      IndentIsWs(l, 0);
      assert Serialize(l, esc, obj) == "{" + Indent(l, 1) + body + Indent(l, 0) + "}";
      DocumentTextRoundTrip(Indent(l, 1), body, Indent(l, 0), obj);
    }
  }
}
