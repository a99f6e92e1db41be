/**
 * The TypeScript licence maker: takes the four fields as given (no checks at
 * all), signs their compact JSON with RSA, puts 129 random hex digits in
 * front of the hex signature and hands out Base64 of the compact JSON of the
 * fields plus that signature.
 *
 * The RSA signer (with the private key it reads) is the parameter `rsaSign`,
 * which gives None when signing throws; the 65 random bytes are `random`.
 */
module TsIssuer {
  import opened Wrappers
  import opened Bytes
  import Utf8
  import opened Json
  import opened Envelope
  import opened Issuance
  import JsonParse

  /** `JSON.stringify(license)`: compact, keys in insertion order, non-ASCII characters kept. */
  function SignedText(customerId: string, startDate: string, endDate: string, modules: seq<string>): (text: string)
    ensures JsonParse.ParseDocument(text) == Some(Record(customerId, startDate, endDate, modules))
  {
    JsonParse.DocumentRoundTrip(JsCompact, Raw, Record(customerId, startDate, endDate, modules));
    Serialize(JsCompact, Raw, Record(customerId, startDate, endDate, modules))
  }

  /** `randomBytes(65).toString("hex").substring(0, 129)`: the rendering of the bytes without its last digit. */
  function Padding(random: seq<byte>): (p: string)
    requires |random| == 65
    ensures |p| == 129 && AllLowerHex(p)
  {
    HexEncode(random)[..129]
  }

  /**
   * The padding is 129 lowercase hex digits: the two digits of each of the
   * first 64 bytes, then the high digit of the last byte.
   */
  lemma PaddingShape(random: seq<byte>)
    requires |random| == 65
    ensures |Padding(random)| == 129 && AllLowerHex(Padding(random))
    ensures Padding(random) == HexEncode(random[..64]) + [HexDigit(random[64] / 16)]
  {
    assert random == random[..64] + [random[64]];
    HexEncodeAppend(random[..64], [random[64]]);
    assert HexEncode([random[64]]) == HexPair(random[64]);
  }

  /** Every string of 129 lowercase hex digits is the padding of some 65 bytes, so the padding fixes nothing. */
  lemma PaddingCovers(s: string)
    requires |s| == 129 && AllLowerHex(s)
    ensures exists random: seq<byte> :: |random| == 65 && Padding(random) == s
  {
    var t := s + "0";
    assert AllLowerHex(t) by {
      forall i | 0 <= i < |t|
        ensures IsLowerHex(t[i])
      {
        if i < |s| {
          assert t[i] == s[i];
        }
      }
    }
    HexDecodeLower(t);
    var random := HexDecode(t).value;
    assert |HexEncode(random)| == 130;
    assert HexEncode(random)[..129] == t[..129] == s;
  }

  /** The `signature` field: the padding, then the hex RSA signature. */
  function SignatureField(random: seq<byte>, rsaSignature: seq<byte>): string
    requires |random| == 65
  {
    Padding(random) + HexEncode(rsaSignature)
  }

  /**
   * A checker recovers the signature by cutting the field after 129
   * characters: the front is the padding and the rest decodes to exactly the
   * RSA signature.
   */
  lemma SignatureSplit(random: seq<byte>, rsaSignature: seq<byte>)
    requires |random| == 65
    ensures var f := SignatureField(random, rsaSignature);
      && |f| == 129 + 2 * |rsaSignature|
      && AllLowerHex(f)
      && f[..129] == Padding(random)
      && HexDecode(f[129..]) == Some(rsaSignature)
  {
    var f := SignatureField(random, rsaSignature);
    PaddingShape(random);
    assert f[..129] == Padding(random) && f[129..] == HexEncode(rsaSignature);
    HexRoundTrip(rsaSignature);
  }

  /** What `generateLicense` builds before encoding: the fields plus signature, or the signer's failure. */
  function LicenceDocument(
    customerId: string, modules: seq<string>, startDate: string, endDate: string,
    random: seq<byte>, rsaSign: seq<byte> -> Option<seq<byte>>): (r: Result<Object, IssueError>)
    requires |random| == 65
    ensures var signed := rsaSign(Utf8.Encode(SignedText(customerId, startDate, endDate, modules)));
      (r.Ok? <==> signed.Some?) && (r.Err? ==> r.error == SignerFailed)
    ensures r.Ok? ==> |r.value| == 5 && r.value[..4] == Record(customerId, startDate, endDate, modules)
  {
    match rsaSign(Utf8.Encode(SignedText(customerId, startDate, endDate, modules)))
    case None => Err(SignerFailed)
    case Some(rsaSignature) =>
      Ok(Licence(customerId, startDate, endDate, modules, SignatureField(random, rsaSignature)))
  }

  /** `generateLicense`: the licence string, or the signer's failure. */
  function GenerateLicense(
    customerId: string, modules: seq<string>, startDate: string, endDate: string,
    random: seq<byte>, rsaSign: seq<byte> -> Option<seq<byte>>): (r: Result<string, IssueError>)
    requires |random| == 65
    ensures var signed := rsaSign(Utf8.Encode(SignedText(customerId, startDate, endDate, modules)));
      (r.Ok? <==> signed.Some?) && (r.Err? ==> r.error == SignerFailed)
    ensures r.Ok? ==> |r.value| % 4 == 0
  {
    match LicenceDocument(customerId, modules, startDate, endDate, random, rsaSign)
    case Err(e) => Err(e)
    case Ok(doc) => Ok(Seal(JsCompact, Raw, doc))
  }

  /**
   * Nothing is validated: a licence comes out exactly when the signer
   * succeeds, whatever the fields hold. It lists customerId, startDate,
   * endDate, modules verbatim and then the signature, whose first 129
   * characters are the padding and whose rest decodes to the signature of the
   * compact JSON of the four fields.
   */
  lemma IssuedDocument(
    customerId: string, modules: seq<string>, startDate: string, endDate: string,
    random: seq<byte>, rsaSign: seq<byte> -> Option<seq<byte>>)
    requires |random| == 65
    ensures var r := LicenceDocument(customerId, modules, startDate, endDate, random, rsaSign);
      var signed := rsaSign(Utf8.Encode(SignedText(customerId, startDate, endDate, modules)));
      && (r.Ok? <==> signed.Some?)
      && (r.Err? ==> r.error == SignerFailed)
      && (r.Ok? ==>
            && Keys(r.value) == ["customerId", "startDate", "endDate", "modules", "signature"]
            && r.value[..4] == Record(customerId, startDate, endDate, modules)
            && r.value[4].value.Str?
            && |r.value[4].value.s| == 129 + 2 * |signed.value|
            && r.value[4].value.s[..129] == Padding(random)
            && HexDecode(r.value[4].value.s[129..]) == Some(signed.value))
  {
    var r := LicenceDocument(customerId, modules, startDate, endDate, random, rsaSign);
    var signed := rsaSign(Utf8.Encode(SignedText(customerId, startDate, endDate, modules)));
    if signed.Some? {
      var field := SignatureField(random, signed.value);
      assert r.value == Licence(customerId, startDate, endDate, modules, field);
      SignatureSplit(random, signed.value);
      LicenceShape(customerId, startDate, endDate, modules, field);
    }
  }

  /**
   * The licence string is the compact JSON of the document in standard
   * Base64, so its length is a multiple of four, and opening it gives the
   * document back.
   */
  lemma IssuedLicence(
    customerId: string, modules: seq<string>, startDate: string, endDate: string,
    random: seq<byte>, rsaSign: seq<byte> -> Option<seq<byte>>)
    requires |random| == 65
    ensures var r := GenerateLicense(customerId, modules, startDate, endDate, random, rsaSign);
      var d := LicenceDocument(customerId, modules, startDate, endDate, random, rsaSign);
      && (r.Ok? <==> d.Ok?)
      && (r.Ok? ==> |r.value| % 4 == 0 && r.value == Seal(JsCompact, Raw, d.value) && Open(r.value) == Some(d.value))
  {
    var d := LicenceDocument(customerId, modules, startDate, endDate, random, rsaSign);
    if d.Ok? {
      OpenSeal(JsCompact, Raw, d.value);
    }
  }
}
