/**
 * The transport form every issuer hands out: the licence document serialised
 * as JSON, encoded as UTF-8 and then as standard Base64. `Open` is the
 * reader a licence checker applies; it undoes each of the three steps.
 */
module Envelope {
  import opened Wrappers
  import Base64
  import Utf8
  import opened Json
  import JsonParse

  /** The licence string: Base64 of the UTF-8 bytes of the JSON document. */
  function Seal(l: Layout, esc: Escaping, doc: Object): (s: string)
    ensures |s| % 4 == 0
    ensures forall i :: 0 <= i < |s| ==> Base64.IsAlphabetChar(s[i]) || s[i] == '='
  {
    var bytes := Utf8.Encode(Serialize(l, esc, doc));
    Base64.EncodeLength(bytes);
    Base64.EncodeAlphabet(bytes);
    Base64.Encode(bytes)
  }

  /** Base64-decodes, UTF-8-decodes and parses a licence string. */
  function Open(s: string): Option<Object> {
    match Base64.Decode(s)
    case None => None
    case Some(bytes) =>
      match Utf8.Decode(bytes)
      case None => None
      case Some(text) => JsonParse.ParseDocument(text)
  }

  /** Opening a sealed document gives the document back: no member, order or character is lost. */
  lemma OpenSeal(l: Layout, esc: Escaping, doc: Object)
    ensures Open(Seal(l, esc, doc)) == Some(doc)
  {
    var text := Serialize(l, esc, doc);
    Base64.DecodeEncode(Utf8.Encode(text));
    Utf8.DecodeEncode(text);
    JsonParse.DocumentRoundTrip(l, esc, doc);
  }
}
