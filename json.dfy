/**
 * The restricted JSON the licence makers write: one flat object whose fields
 * are strings or lists of strings, in the byte layouts of
 *  - Python `json.dumps(obj)` (separators ", " and ": "),
 *  - Python `json.dumps(obj, indent=w)` (separators "," and ": ", each member
 *    and list item on its own line, indented by `w` spaces per level),
 *  - JavaScript `JSON.stringify(obj)` (separators "," and ":", no whitespace),
 * with either Python's `ensure_ascii=True` escaping or the "raw" escaping that
 * Python's `ensure_ascii=False` and JavaScript share, and Python's
 * `sort_keys=True` member order (section 7 of RFC 8259 for the escapes).
 */
module Json {
  import opened Wrappers
  import opened Text
  import opened Bytes

  datatype Value = Str(s: string) | StrList(items: seq<string>)

  datatype Member = Member(key: string, value: Value)

  /** The members in the order they are written (a dict's insertion order). */
  type Object = seq<Member>

  /**
   * AsciiOnly is Python's default `ensure_ascii=True`: every character outside
   * ' '..'~' is written as `\uXXXX` (a surrogate pair above U+FFFF).
   * Raw is Python's `ensure_ascii=False` and JavaScript's `JSON.stringify`:
   * only the quote, the backslash and the control characters are escaped.
   */
  datatype Escaping = AsciiOnly | Raw

  datatype Layout =
    | PySpaced          // json.dumps(obj): ", " between items, ": " after keys
    | PyIndented(width: nat)  // json.dumps(obj, indent=width)
    | JsCompact         // JSON.stringify(obj)

  // ---------------------------------------------------------------------------------------------
  // Strings
  // ---------------------------------------------------------------------------------------------

  /** The two-character escapes both languages use: \" \\ \b \f \n \r \t. */
  function ShortEscape(c: char): Option<char> {
    if c == '"' then Some('"')
    else if c == '\\' then Some('\\')
    else if c == '\U{8}' then Some('b')
    else if c == '\U{c}' then Some('f')
    else if c == '\n' then Some('n')
    else if c == '\r' then Some('r')
    else if c == '\t' then Some('t')
    else None
  }

  /** `\uXXXX` with four lowercase hex digits (Python's '\\u{0:04x}', JavaScript's UnicodeEscape). */
  function UnicodeEscape(n: nat): (r: string)
    requires n < 0x10000
    ensures |r| == 6 && r[0] == '\\' && r[1] == 'u'
    ensures forall i :: 2 <= i < 6 ==> IsLowerHex(r[i])
  {
    "\\u" + [HexDigit(n / 16 / 16 / 16), HexDigit(n / 16 / 16 % 16), HexDigit(n / 16 % 16), HexDigit(n % 16)]
  }

  predicate IsPrintableAscii(c: char) {
    ' ' <= c <= '~'
  }

  /**
   * How one character is written inside a string literal. With ASCII
   * escaping only printable ASCII is written; with raw escaping a character
   * is written as itself exactly when it is not a quote, a backslash or a
   * control character.
   */
  function EscapeChar(esc: Escaping, c: char): (r: string)
    ensures |r| >= 1
    ensures esc == AsciiOnly ==> forall i :: 0 <= i < |r| ==> IsPrintableAscii(r[i])
    ensures esc == Raw ==> (r == [c] <==> (c != '"' && c != '\\' && c as int >= 0x20))
  {
    var cp := c as int;
    match ShortEscape(c)
    case Some(e) => ['\\', e]
    case None =>
      if cp < 0x20 then UnicodeEscape(cp)
      else if esc == Raw || cp <= 0x7E then [c]
      else if cp < 0x10000 then UnicodeEscape(cp)
      else SurrogateEscapes(cp)
  }

  /** A character above U+FFFF as the escapes of its UTF-16 surrogate pair, high then low. */
  function SurrogateEscapes(cp: int): string
    requires 0x10000 <= cp < 0x110000
  {
    UnicodeEscape(HighSurrogate(cp)) + UnicodeEscape(LowSurrogate(cp))
  }

  /** The leading (high) UTF-16 surrogate of a code point above U+FFFF: its top ten bits over 0xD800. */
  function HighSurrogate(cp: int): (hi: nat)
    requires 0x10000 <= cp < 0x110000
    ensures 0xD800 <= hi < 0xDC00
  {
    0xD800 + (cp - 0x10000) / 1024
  }

  /** The trailing (low) UTF-16 surrogate of a code point above U+FFFF: its low ten bits over 0xDC00. */
  function LowSurrogate(cp: int): (lo: nat)
    requires 0x10000 <= cp < 0x110000
    ensures 0xDC00 <= lo < 0xE000
  {
    0xDC00 + (cp - 0x10000) % 1024
  }

  function Escape(esc: Escaping, s: string): string {
    if s == [] then "" else EscapeChar(esc, s[0]) + Escape(esc, s[1..])
  }

  /** A string literal: the escaped text between double quotes. */
  function Quote(esc: Escaping, s: string): string {
    "\"" + Escape(esc, s) + "\""
  }

  lemma {:induction false} EscapeAscii(s: string)
    ensures forall i :: 0 <= i < |Escape(AsciiOnly, s)| ==> IsPrintableAscii(Escape(AsciiOnly, s)[i])
  {
    if s != [] {
      EscapeAscii(s[1..]);
      var e, rest := EscapeChar(AsciiOnly, s[0]), Escape(AsciiOnly, s[1..]);
      forall i | 0 <= i < |e + rest| ensures IsPrintableAscii((e + rest)[i]) {
        if i >= |e| {
          assert (e + rest)[i] == rest[i - |e|];
        }
      }
    }
  }

  /** Printable ASCII other than the quote and the backslash is written as itself under both escapings. */
  lemma EscapePlainAscii(esc: Escaping, s: string)
    requires forall i :: 0 <= i < |s| ==> IsPrintableAscii(s[i]) && s[i] != '"' && s[i] != '\\'
    ensures Escape(esc, s) == s
  {
  }

  // ---------------------------------------------------------------------------------------------
  // Layout
  // ---------------------------------------------------------------------------------------------

  function Spaces(n: nat): (r: string)
    ensures |r| == n
  {
    seq(n, _ => ' ')
  }

  /** The line break and indentation before something at nesting `level` (nothing when not indenting). */
  function Indent(l: Layout, level: nat): string {
    match l
    case PyIndented(w) => "\n" + Spaces(w * level)
    case _ => ""
  }

  /** What separates two members or two list items at nesting `level`. */
  function ItemSeparator(l: Layout, level: nat): string {
    match l
    case PySpaced => ", "
    case PyIndented(_) => "," + Indent(l, level)
    case JsCompact => ","
  }

  /** What separates a key from its value. */
  function KeySeparator(l: Layout): string {
    if l == JsCompact then ":" else ": "
  }

  // ---------------------------------------------------------------------------------------------
  // Values and objects
  // ---------------------------------------------------------------------------------------------

  /** The items of a non-empty list, at nesting level 2 (inside the top-level object). */
  function ItemsText(l: Layout, esc: Escaping, items: seq<string>): string
    requires items != []
  {
    Quote(esc, items[0]) + if |items| == 1 then "" else ItemSeparator(l, 2) + ItemsText(l, esc, items[1..])
  }

  function ValueText(l: Layout, esc: Escaping, v: Value): string {
    match v
    case Str(s) => Quote(esc, s)
    case StrList(items) =>
      if items == [] then "[]" else "[" + Indent(l, 2) + ItemsText(l, esc, items) + Indent(l, 1) + "]"
  }

  function MemberText(l: Layout, esc: Escaping, m: Member): string {
    Quote(esc, m.key) + KeySeparator(l) + ValueText(l, esc, m.value)
  }

  function MembersText(l: Layout, esc: Escaping, obj: Object): string
    requires obj != []
  {
    MemberText(l, esc, obj[0]) + if |obj| == 1 then "" else ItemSeparator(l, 1) + MembersText(l, esc, obj[1..])
  }

  /** The whole document: a flat object at nesting level 1, between braces. */
  function Serialize(l: Layout, esc: Escaping, obj: Object): (r: string)
    ensures |r| >= 2 && r[0] == '{' && r[|r| - 1] == '}'
  {
    if obj == [] then "{}" else "{" + Indent(l, 1) + MembersText(l, esc, obj) + Indent(l, 0) + "}"
  }

  // ---------------------------------------------------------------------------------------------
  // sort_keys=True
  // ---------------------------------------------------------------------------------------------

  function Keys(obj: Object): seq<string> {
    if obj == [] then [] else [obj[0].key] + Keys(obj[1..])
  }

  /** Members in non-decreasing key order (Python's code-point order on `str`). */
  predicate SortedByKey(obj: Object) {
    forall i, j :: 0 <= i < j < |obj| ==> !Less(obj[j].key, obj[i].key)
  }

  /** Inserts `m` in front of the first member whose key is not smaller. */
  function Insert(m: Member, sorted: Object): Object {
    if sorted == [] then [m]
    else if !Less(sorted[0].key, m.key) then [m] + sorted
    else [sorted[0]] + Insert(m, sorted[1..])
  }

  /** `sort_keys=True`: insertion sort on the keys. */
  function SortKeys(obj: Object): Object {
    if obj == [] then [] else Insert(obj[0], SortKeys(obj[1..]))
  }

  /** Insertion keeps every member and adds exactly `m`. */
  lemma {:induction false} InsertPermutes(m: Member, sorted: Object)
    ensures multiset(Insert(m, sorted)) == multiset(sorted) + multiset{m}
  {
    if sorted != [] && Less(sorted[0].key, m.key) {
      InsertPermutes(m, sorted[1..]);
      assert sorted == [sorted[0]] + sorted[1..];
    }
  }

  /** Insertion into a key-ordered object keeps it key-ordered. */
  lemma {:induction false} InsertSorted(m: Member, sorted: Object)
    requires SortedByKey(sorted)
    ensures SortedByKey(Insert(m, sorted))
  {
    if sorted == [] {
    } else if !Less(sorted[0].key, m.key) {
      NotGreaterThanHead(m, sorted);
    } else {
      assert sorted == [sorted[0]] + sorted[1..];
      InsertSorted(m, sorted[1..]);
      InsertPermutes(m, sorted[1..]);
      HeadNotGreater(sorted[0], m, sorted[1..], Insert(m, sorted[1..]));
    }
  }

  /** A key not greater than the head of a sorted object is not greater than any of its keys. */
  lemma NotGreaterThanHead(m: Member, sorted: Object)
    requires SortedByKey(sorted) && sorted != [] && !Less(sorted[0].key, m.key)
    ensures SortedByKey([m] + sorted)
  {
    forall j | 0 <= j < |sorted| ensures !Less(sorted[j].key, m.key) {
      if Less(sorted[j].key, m.key) {
        if j > 0 && m.key != sorted[0].key {
          LessTotal(m.key, sorted[0].key);
          LessTransitive(sorted[j].key, m.key, sorted[0].key);
        }
      }
    }
  }

  /** Putting back a head that is smaller than `m` and not greater than the rest keeps the order. */
  lemma HeadNotGreater(h: Member, m: Member, rest: Object, tail: Object)
    requires SortedByKey([h] + rest) && SortedByKey(tail) && Less(h.key, m.key)
    requires multiset(tail) == multiset(rest) + multiset{m}
    ensures SortedByKey([h] + tail)
  {
    forall j | 0 <= j < |tail| ensures !Less(tail[j].key, h.key) {
      assert tail[j] in multiset(tail);
      if tail[j] == m {
        if Less(m.key, h.key) {
          LessTransitive(h.key, m.key, h.key);
          LessIrreflexive(h.key);
        }
      } else {
        assert tail[j] in multiset(rest);
        var k :| 0 <= k < |rest| && rest[k] == tail[j];
        assert ([h] + rest)[k + 1] == rest[k] && ([h] + rest)[0] == h;
      }
    }
  }

  /** `SortKeys` returns the same members, ordered by key. */
  lemma {:induction false} SortKeysSortsAndPermutes(obj: Object)
    ensures SortedByKey(SortKeys(obj))
    ensures multiset(SortKeys(obj)) == multiset(obj)
  {
    if obj != [] {
      SortKeysSortsAndPermutes(obj[1..]);
      InsertSorted(obj[0], SortKeys(obj[1..]));
      InsertPermutes(obj[0], SortKeys(obj[1..]));
      assert obj == [obj[0]] + obj[1..];
    }
  }
}
