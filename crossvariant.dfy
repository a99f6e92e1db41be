/**
 * The GUI maker and the TypeScript maker sign the same four fields, but not
 * the same bytes: Python's `json.dumps` puts a space after each colon and
 * sorts the keys, `JSON.stringify` does neither. So a signature made by one
 * can never be checked against the text the other one signs.
 */
module CrossVariant {
  import Utf8
  import opened Json
  import Issuance
  import CoreIssuer
  import TsIssuer

  predicate IsPrefix(p: string, s: string) {
    |p| <= |s| && s[..|p|] == p
  }

  lemma PrefixOfAppend(p: string, a: string, b: string)
    requires IsPrefix(p, a)
    ensures IsPrefix(p, a + b)
  {
    assert (a + b)[..|p|] == a[..|p|];
  }

  lemma PrefixUnderBrace(p: string, a: string)
    requires IsPrefix(p, a)
    ensures IsPrefix("{" + p, "{" + a + "}")
  {
    assert ("{" + a + "}")[1..|p| + 1] == a[..|p|];
  }

  /** A member holding a string is written as its quoted key, the separator, and an opening quote, then more. */
  lemma MemberOpening(l: Layout, esc: Escaping, m: Member)
    requires m.value.Str?
    ensures IsPrefix(Quote(esc, m.key) + KeySeparator(l) + "\"", MemberText(l, esc, m))
  {
    var q := Quote(esc, m.key) + KeySeparator(l);
    var body := Escape(esc, m.value.s) + "\"";
    QuoteFirst(q, body);
    assert MemberText(l, esc, m) == q + ("\"" + body);
  }

  lemma QuoteFirst(q: string, body: string)
    ensures q + ("\"" + body) == (q + "\"") + body && IsPrefix(q + "\"", q + ("\"" + body))
  {
  }

  /** Without indentation the document is its members between braces. */
  lemma FlatDocument(l: Layout, esc: Escaping, obj: Object)
    requires l == PySpaced || l == JsCompact
    requires obj != []
    ensures Serialize(l, esc, obj) == "{" + MembersText(l, esc, obj) + "}"
  {
    var ms := MembersText(l, esc, obj);
    assert Serialize(l, esc, obj) == "{" + Indent(l, 1) + ms + Indent(l, 0) + "}";
    assert Indent(l, 1) == "" && Indent(l, 0) == "";
    Unindented(ms);
  }

  lemma Unindented(ms: string)
    ensures "{" + "" + ms + "" + "}" == "{" + ms + "}"
  {
  }

  /** How a document opens when its first member holds a string: the brace, the quoted key, the key separator and a quote. */
  function KeyOpening(l: Layout, esc: Escaping, key: string): string {
    "{" + (Quote(esc, key) + KeySeparator(l) + "\"")
  }

  /** Without indentation, a document whose first member holds a string opens with that member's key opening. */
  lemma Opening(l: Layout, esc: Escaping, obj: Object)
    requires l == PySpaced || l == JsCompact
    requires obj != [] && obj[0].value.Str?
    ensures IsPrefix(KeyOpening(l, esc, obj[0].key), Serialize(l, esc, obj))
  {
    var p := Quote(esc, obj[0].key) + KeySeparator(l) + "\"";
    var mt := MemberText(l, esc, obj[0]);
    MemberOpening(l, esc, obj[0]);
    var ms := MembersText(l, esc, obj);
    assert ms == mt + (if |obj| == 1 then "" else ItemSeparator(l, 1) + MembersText(l, esc, obj[1..]));
    PrefixOfAppend(p, mt, ms[|mt|..]);
    assert mt + ms[|mt|..] == ms;
    FlatDocument(l, esc, obj);
    PrefixUnderBrace(p, ms);
  }

  predicate PlainKey(key: string) {
    forall i :: 0 <= i < |key| ==> IsPrintableAscii(key[i]) && key[i] != '"' && key[i] != '\\'
  }

  /** The first bytes of a UTF-8 text that starts with an ASCII prefix are that prefix's code points. */
  lemma AsciiPrefixBytes(text: string, p: string, i: nat)
    requires IsPrefix(p, text) && Utf8.IsAscii(p) && i < |p|
    ensures i < |Utf8.Encode(text)| && Utf8.Encode(text)[i] == p[i] as int
  {
    assert text == p + text[|p|..];
    Utf8.EncodeAppend(p, text[|p|..]);
    Utf8.EncodeAscii(p);
  }

  /**
   * For a ten-character key of plain ASCII the opening is ASCII, and its
   * fifteenth character is the space after the colon in Python's layout and
   * the quote that opens the value in the compact one.
   */
  lemma OpeningChars(l: Layout, esc: Escaping, key: string)
    requires l == PySpaced || l == JsCompact
    requires |key| == 10 && PlainKey(key)
    ensures Utf8.IsAscii(KeyOpening(l, esc, key)) && 14 < |KeyOpening(l, esc, key)|
    ensures KeyOpening(l, esc, key)[14] == if l == PySpaced then ' ' else '"'
  {
    EscapePlainAscii(esc, key);
    var q := "\"" + key + "\"";
    assert Quote(esc, key) == q;
    forall i | 0 <= i < |q|
      ensures q[i] as int < 0x80
    {
      if 1 <= i < 11 {
        assert q[i] == key[i - 1];
      }
    }
    AsciiOpening(KeyOpening(l, esc, key), q, KeySeparator(l));
  }

  lemma AsciiOpening(s: string, q: string, sep: string)
    requires s == "{" + (q + sep + "\"")
    requires Utf8.IsAscii(q) && Utf8.IsAscii(sep) && |q| == 12 && 1 <= |sep|
    ensures Utf8.IsAscii(s) && |s| == 14 + |sep|
    ensures s[13] == sep[0] && s[13 + |sep|] == '"'
    ensures |sep| == 2 ==> s[14] == sep[1]
  {
    forall i | 0 <= i < |s|
      ensures s[i] as int < 0x80
    {
      if 1 <= i < 13 {
        assert s[i] == q[i - 1];
      } else if 13 <= i < 13 + |sep| {
        assert s[i] == sep[i - 13];
      }
    }
  }

  lemma CustomerIdIsPlain()
    ensures |"customerId"| == 10 && PlainKey("customerId")
  {
  }

  /** The GUI maker's signed text opens with the customerId key, a colon, a space and a quote. */
  lemma PythonOpening(customerId: string, startDate: string, endDate: string, modules: seq<string>)
    ensures IsPrefix(KeyOpening(PySpaced, AsciiOnly, "customerId"), CoreIssuer.SignedText(Issuance.Record(customerId, startDate, endDate, modules)))
  {
    var sorted := SortKeys(Issuance.Record(customerId, startDate, endDate, modules));
    CoreIssuer.SignedKeyOrder(customerId, startDate, endDate, modules);
    Opening(PySpaced, AsciiOnly, sorted);
  }

  /** The TypeScript maker's signed text opens with the customerId key, a colon and a quote. */
  lemma TsOpening(customerId: string, startDate: string, endDate: string, modules: seq<string>)
    ensures IsPrefix(KeyOpening(JsCompact, Raw, "customerId"), TsIssuer.SignedText(customerId, startDate, endDate, modules))
  {
    Opening(JsCompact, Raw, Issuance.Record(customerId, startDate, endDate, modules));
  }

  /** Two texts that open with the same plain ten-character key, one in each layout, differ in their fifteenth UTF-8 byte. */
  lemma OpeningsDiffer(pyText: string, tsText: string, key: string)
    requires |key| == 10 && PlainKey(key)
    requires IsPrefix(KeyOpening(PySpaced, AsciiOnly, key), pyText)
    requires IsPrefix(KeyOpening(JsCompact, Raw, key), tsText)
    ensures var py := Utf8.Encode(pyText);
      var ts := Utf8.Encode(tsText);
      && 14 < |py| && 14 < |ts| && py[14] == ' ' as int && ts[14] == '"' as int
      && py != ts
  {
    OpeningChars(PySpaced, AsciiOnly, key);
    OpeningChars(JsCompact, Raw, key);
    AsciiPrefixBytes(pyText, KeyOpening(PySpaced, AsciiOnly, key), 14);
    AsciiPrefixBytes(tsText, KeyOpening(JsCompact, Raw, key), 14);
  }

  /**
   * For every choice of the four fields, the bytes the GUI maker hashes and
   * the bytes the TypeScript maker signs differ: byte 14 is a space (after
   * `"customerId":`) in the one and a quote in the other.
   */
  lemma SignedBytesDiffer(customerId: string, startDate: string, endDate: string, modules: seq<string>)
    ensures var py := Utf8.Encode(CoreIssuer.SignedText(Issuance.Record(customerId, startDate, endDate, modules)));
      var ts := Utf8.Encode(TsIssuer.SignedText(customerId, startDate, endDate, modules));
      && 14 < |py| && 14 < |ts| && py[14] == ' ' as int && ts[14] == '"' as int
      && py != ts
  {
    PythonOpening(customerId, startDate, endDate, modules);
    TsOpening(customerId, startDate, endDate, modules);
    CustomerIdIsPlain();
    OpeningsDiffer(
      CoreIssuer.SignedText(Issuance.Record(customerId, startDate, endDate, modules)),
      TsIssuer.SignedText(customerId, startDate, endDate, modules),
      "customerId");
  }
}
