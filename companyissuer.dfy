/**
 * The company licence maker: checks the two dates as typed (no trimming),
 * stamps the issue time, signs the plain concatenation of the two dates with
 * SHA-256 and hands out Base64 of four-space-indented JSON that keeps
 * non-ASCII characters as they are.
 *
 * SHA-256 is the parameter `sha256` and the UTC clock reading is `now`.
 */
module CompanyIssuer {
  import opened Wrappers
  import Text
  import opened Bytes
  import Utf8
  import Dates
  import opened Json
  import opened Envelope
  import opened Issuance

  /** The legacy signature: hex SHA-256 of `startDate` immediately followed by `endDate`, no prefix. */
  function LegacySignature(sha256: seq<byte> -> seq<byte>, startDate: string, endDate: string): (sig: string)
    requires DigestSize(sha256)
    ensures |sig| == 64 && AllLowerHex(sig)
    ensures HexDecode(sig) == Some(sha256(Utf8.Encode(startDate + endDate)))
  {
    HexDigest(sha256, startDate + endDate)
  }

  /** The record literal: the two dates, the issue time and the signature, in that order. */
  function DateRecord(startDate: string, endDate: string, issuedAt: string, signature: string): Object {
    [ Member("startDate", Str(startDate)),
      Member("endDate", Str(endDate)),
      Member("issuedAt", Str(issuedAt)),
      Member("signature", Str(signature)) ]
  }

  /** The record has exactly the keys startDate, endDate, issuedAt, signature, holding the given texts. */
  lemma DateRecordShape(startDate: string, endDate: string, issuedAt: string, signature: string)
    ensures var doc := DateRecord(startDate, endDate, issuedAt, signature);
      && Keys(doc) == ["startDate", "endDate", "issuedAt", "signature"]
      && doc[0].value == Str(startDate) && doc[1].value == Str(endDate)
      && doc[2].value == Str(issuedAt) && doc[3].value == Str(signature)
  {
    var doc := DateRecord(startDate, endDate, issuedAt, signature);
    assert doc[3..][1..] == [] && doc[2..][1..] == doc[3..] && doc[1..][1..] == doc[2..];
    assert Keys(doc[3..]) == ["signature"];
    assert Keys(doc[2..]) == ["issuedAt", "signature"];
    assert Keys(doc[1..]) == ["endDate", "issuedAt", "signature"];
  }

  /** What `generate_license` builds before encoding: the four-member record, or the date error. */
  function LicenceDocument(startDate: string, endDate: string, now: Dates.DateTime, sha256: seq<byte> -> seq<byte>)
    : (r: Result<Object, IssueError>)
    requires Dates.IsValidDateTime(now) && DigestSize(sha256)
    ensures (r.Ok? <==> CheckDates(startDate, endDate).Ok?) && (r.Err? ==> r.error == CheckDates(startDate, endDate).error)
    ensures r.Ok? ==> |r.value| == 4 && r.value[0].value == Str(startDate) && r.value[1].value == Str(endDate)
  {
    match CheckDates(startDate, endDate)
    case Err(e) => Err(e)
    case Ok(_) => Ok(DateRecord(startDate, endDate, Dates.FormatUtc(now), LegacySignature(sha256, startDate, endDate)))
  }

  /** `generate_license`: the licence string, or the date error. */
  function GenerateLicense(startDate: string, endDate: string, now: Dates.DateTime, sha256: seq<byte> -> seq<byte>)
    : (r: Result<string, IssueError>)
    requires Dates.IsValidDateTime(now) && DigestSize(sha256)
    ensures (r.Ok? <==> CheckDates(startDate, endDate).Ok?) && (r.Err? ==> r.error == CheckDates(startDate, endDate).error)
    ensures r.Ok? ==> |r.value| % 4 == 0
  {
    match LicenceDocument(startDate, endDate, now, sha256)
    case Err(e) => Err(e)
    case Ok(doc) => Ok(Seal(PyIndented(4), Raw, doc))
  }

  /**
   * Only the two date checks can refuse, and they see the dates exactly as
   * typed. A licence holds exactly startDate, endDate, issuedAt, signature,
   * in that order: the dates verbatim, the issue time as the 20-character
   * UTC stamp of `now`, and a 64-digit hex SHA-256 of the two dates run
   * together.
   */
  lemma IssuedDocument(startDate: string, endDate: string, now: Dates.DateTime, sha256: seq<byte> -> seq<byte>)
    requires Dates.IsValidDateTime(now) && DigestSize(sha256)
    ensures var r := LicenceDocument(startDate, endDate, now, sha256);
      && (r.Ok? <==> CheckDates(startDate, endDate).Ok?)
      && (r.Err? ==> r.error == CheckDates(startDate, endDate).error)
      && (r.Ok? ==>
            var doc := r.value;
            && Keys(doc) == ["startDate", "endDate", "issuedAt", "signature"]
            && doc[0].value == Str(startDate) && doc[1].value == Str(endDate)
            && doc[2].value == Str(Dates.FormatUtc(now)) && |doc[2].value.s| == 20
            && Dates.ParseDate(doc[2].value.s[..10]) == Some(now.date)
            && doc[3].value.Str? && |doc[3].value.s| == 64 && AllLowerHex(doc[3].value.s)
            && HexDecode(doc[3].value.s) == Some(sha256(Utf8.Encode(startDate + endDate))))
  {
    var r := LicenceDocument(startDate, endDate, now, sha256);
    if r.Ok? {
      var issuedAt := Dates.FormatUtc(now);
      var signature := LegacySignature(sha256, startDate, endDate);
      assert r.value == DateRecord(startDate, endDate, issuedAt, signature);
      DateRecordShape(startDate, endDate, issuedAt, signature);
    }
  }

  /** The licence string is the indented, raw-escaped record, and opening it gives that record back. */
  lemma IssuedLicence(startDate: string, endDate: string, now: Dates.DateTime, sha256: seq<byte> -> seq<byte>)
    requires Dates.IsValidDateTime(now) && DigestSize(sha256)
    ensures var r := GenerateLicense(startDate, endDate, now, sha256);
      var d := LicenceDocument(startDate, endDate, now, sha256);
      && (r.Ok? <==> d.Ok?)
      && (r.Ok? ==> Open(r.value) == Some(d.value) && r.value == Seal(PyIndented(4), Raw, d.value))
  {
    var d := LicenceDocument(startDate, endDate, now, sha256);
    if d.Ok? {
      OpenSeal(PyIndented(4), Raw, d.value);
    }
  }

  /** The dates are not trimmed: a date typed with a space in front is a format error, the same date without it is accepted. */
  lemma NoTrimming()
    ensures CheckDates(" 2025-07-30", "2025-09-15") == Err(DateFormat)
    ensures CheckDates("2025-07-30", "2025-09-15").Ok?
  {
    assert !Text.IsDigit(" 2025-07-30"[..4][0]);
    assert Dates.ParseDate(" 2025-07-30") == None;
    var y := "2025";
    assert y[..3][..2][..1][..0] == [];
    assert Text.DecimalValue(y[..3][..2][..1]) == 2;
    assert Text.DecimalValue(y[..3][..2]) == 20;
    assert Text.DecimalValue(y[..3]) == 202;
    assert Text.DecimalValue(y) == 2025;
    assert "2025-07-30"[..4] == y && "2025-09-15"[..4] == y;
    assert Dates.ParseDate("2025-07-30") == Some(Dates.Date(2025, 7, 30));
    assert Dates.ParseDate("2025-09-15") == Some(Dates.Date(2025, 9, 15));
  }
}
