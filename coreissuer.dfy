/**
 * The GUI licence maker: trims and checks the customer id, the selected
 * modules and the two dates, signs the four-field record with a salted
 * SHA-256 digest and hands out the record plus its signature as Base64 of
 * indented JSON.
 *
 * SHA-256 is the parameter `sha256`; the random characters are the indices
 * `picks` that `secrets.choice` drew from the alphabet.
 */
module CoreIssuer {
  import opened Wrappers
  import opened Text
  import opened Bytes
  import Utf8
  import Dates
  import opened Json
  import opened Envelope
  import opened Issuance
  import JsonParse
  import ModulePanel

  // ---------------------------------------------------------------------------------------------
  // Random prefix
  // ---------------------------------------------------------------------------------------------

  /** `string.ascii_letters + string.digits`, position by position. */
  function AlphabetChar(i: nat): (c: char)
    requires i < 62
  {
    if i < 26 then ('a' as int + i) as char
    else if i < 52 then ('A' as int + (i - 26)) as char
    else ('0' as int + (i - 52)) as char
  }

  predicate IsAlnum(c: char) {
    ('a' <= c <= 'z') || ('A' <= c <= 'Z') || ('0' <= c <= '9')
  }

  /** The position of an ASCII letter or digit in the alphabet. */
  function AlphabetIndex(c: char): (i: nat)
    requires IsAlnum(c)
    ensures i < 62 && AlphabetChar(i) == c
  {
    if 'a' <= c <= 'z' then c as int - 'a' as int
    else if 'A' <= c <= 'Z' then 26 + (c as int - 'A' as int)
    else 52 + (c as int - '0' as int)
  }

  predicate ValidPicks(picks: seq<nat>) {
    forall k :: 0 <= k < |picks| ==> picks[k] < 62
  }

  /** One alphabet character per draw: exactly as many characters as draws, each a letter or digit. */
  function RandomString(picks: seq<nat>): (r: string)
    requires ValidPicks(picks)
    ensures |r| == |picks|
    ensures forall k :: 0 <= k < |r| ==> IsAlnum(r[k])
  {
    seq(|picks|, k requires 0 <= k < |picks| => AlphabetChar(picks[k]))
  }

  /** Every string of letters and digits is some outcome of the draws, so nothing about the prefix is fixed. */
  lemma RandomStringCovers(s: string)
    requires forall k :: 0 <= k < |s| ==> IsAlnum(s[k])
    ensures var picks := seq(|s|, k requires 0 <= k < |s| => AlphabetIndex(s[k]));
      ValidPicks(picks) && RandomString(picks) == s
  {
  }

  // ---------------------------------------------------------------------------------------------
  // Signature
  // ---------------------------------------------------------------------------------------------

  /** `json.dumps(record, sort_keys=True)`: default separators, ASCII escaping, keys sorted. */
  function SignedText(record: Object): (text: string)
    ensures JsonParse.ParseDocument(text) == Some(SortKeys(record))
  {
    JsonParse.DocumentRoundTrip(PySpaced, AsciiOnly, SortKeys(record));
    Serialize(PySpaced, AsciiOnly, SortKeys(record))
  }

  /** The hex SHA-256 of the signed text. */
  function Digest(sha256: seq<byte> -> seq<byte>, record: Object): string
    requires DigestSize(sha256)
  {
    HexDigest(sha256, SignedText(record))
  }

  /** Sorting the record puts its keys in the order customerId, endDate, modules, startDate. */
  lemma SignedKeyOrder(customerId: string, startDate: string, endDate: string, modules: seq<string>)
    ensures SortKeys(Record(customerId, startDate, endDate, modules))
      == [ Member("customerId", Str(customerId)),
           Member("endDate", Str(endDate)),
           Member("modules", StrList(modules)),
           Member("startDate", Str(startDate)) ]
  {
    var c := Member("customerId", Str(customerId));
    var s := Member("startDate", Str(startDate));
    var e := Member("endDate", Str(endDate));
    var m := Member("modules", StrList(modules));
    var rec := Record(customerId, startDate, endDate, modules);
    KeyLess("endDate", "modules");
    KeyLess("endDate", "startDate");
    KeyLess("modules", "startDate");
    KeyLess("customerId", "endDate");
    SortSteps(c, s, e, m);
    assert rec == [c, s, e, m];
  }

  /** Two keys whose first letters differ compare by those letters. */
  lemma KeyLess(a: string, b: string)
    requires a != [] && b != [] && a[0] < b[0]
    ensures Less(a, b) && !Less(b, a)
  {
  }

  lemma SortSteps(c: Member, s: Member, e: Member, m: Member)
    requires !Less(m.key, e.key)
    requires Less(e.key, s.key) && Less(m.key, s.key)
    requires !Less(e.key, c.key)
    ensures SortKeys([c, s, e, m]) == [c, e, m, s]
  {
    assert [c, s, e, m][1..] == [s, e, m] && [s, e, m][1..] == [e, m] && [e, m][1..] == [m] && [m][1..] == [];
    assert SortKeys([m]) == [m];
    assert SortKeys([e, m]) == [e, m];
    assert Insert(s, [m]) == [m, s];
    assert SortKeys([s, e, m]) == [e, m, s];
  }

  /** The `signature` field: the random prefix, then the digest of the record. */
  function FullSignature(picks: seq<nat>, sha256: seq<byte> -> seq<byte>, record: Object): (sig: string)
    requires ValidPicks(picks) && DigestSize(sha256)
    ensures |sig| == |picks| + 64 && sig[..|picks|] == RandomString(picks)
    ensures AllLowerHex(sig[|picks|..])
    ensures HexDecode(sig[|picks|..]) == Some(sha256(Utf8.Encode(SignedText(record))))
  {
    var sig := RandomString(picks) + Digest(sha256, record);
    assert sig[..|picks|] == RandomString(picks) && sig[|picks|..] == Digest(sha256, record);
    sig
  }

  /** What a checker can verify of a signature: its length, its random prefix, and the digest it ends with. */
  ghost predicate SignatureHolds(sig: string, picks: seq<nat>, sha256: seq<byte> -> seq<byte>, record: Object)
    requires ValidPicks(picks)
  {
    && |sig| == 193
    && sig[..129] == RandomString(picks)
    && HexDecode(sig[129..]) == Some(sha256(Utf8.Encode(SignedText(record))))
  }

  /**
   * With the 129 draws the code makes, the signature is 193 characters: 129
   * letters or digits, then a 64-digit hex digest from which the SHA-256 of the
   * signed text is read back.
   */
  lemma SignatureLayout(picks: seq<nat>, sha256: seq<byte> -> seq<byte>, record: Object)
    requires ValidPicks(picks) && |picks| == 129 && DigestSize(sha256)
    ensures var sig := FullSignature(picks, sha256, record);
      && SignatureHolds(sig, picks, sha256, record)
      && (forall k :: 0 <= k < 129 ==> IsAlnum(sig[k]))
      && AllLowerHex(sig[129..])
  {
    var sig := FullSignature(picks, sha256, record);
    assert sig[..129] == RandomString(picks);
    assert sig[129..] == Digest(sha256, record);
  }

  // ---------------------------------------------------------------------------------------------
  // Validation and assembly
  // ---------------------------------------------------------------------------------------------

  /** The checks on the trimmed fields, in the order the code makes them; on success the two parsed dates. */
  function Check(customerId: string, startDate: string, endDate: string, modules: seq<string>)
    : (r: Result<(Dates.Date, Dates.Date), IssueError>)
    ensures r == Err(CustomerRequired) <==> customerId == []
    ensures r == Err(ModulesRequired) <==> customerId != [] && modules == []
    ensures r.Err? ==> r.error != SignerFailed
    ensures customerId != [] && modules != [] ==> r == CheckDates(startDate, endDate)
    ensures r.Ok? ==>
      && Dates.ParseDate(startDate) == Some(r.value.0) && Dates.ParseDate(endDate) == Some(r.value.1)
      && Dates.Before(r.value.0, r.value.1)
  {
    if customerId == [] then Err(CustomerRequired)
    else if modules == [] then Err(ModulesRequired)
    else CheckDates(startDate, endDate)
  }

  /** What `generate_license` builds before encoding: the signed licence document, or the first check that failed. */
  function LicenceDocument(
    customerRaw: string, startRaw: string, endRaw: string, modules: seq<string>,
    picks: seq<nat>, sha256: seq<byte> -> seq<byte>): (r: Result<Object, IssueError>)
    requires ValidPicks(picks) && DigestSize(sha256)
    ensures var v := Check(Strip(customerRaw), Strip(startRaw), Strip(endRaw), modules);
      (r.Ok? <==> v.Ok?) && (r.Err? ==> r.error == v.error)
    ensures r.Ok? ==>
      && |r.value| == 5
      && r.value[..4] == Record(Strip(customerRaw), Strip(startRaw), Strip(endRaw), modules)
      && r.value[4].key == "signature"
  {
    var customerId := Strip(customerRaw);
    var startDate := Strip(startRaw);
    var endDate := Strip(endRaw);
    match Check(customerId, startDate, endDate, modules)
    case Err(e) => Err(e)
    case Ok(_) =>
      var record := Record(customerId, startDate, endDate, modules);
      Ok(Licence(customerId, startDate, endDate, modules, FullSignature(picks, sha256, record)))
  }

  /** `generate_license`: the licence string, or the first check that failed. */
  function GenerateLicense(
    customerRaw: string, startRaw: string, endRaw: string, modules: seq<string>,
    picks: seq<nat>, sha256: seq<byte> -> seq<byte>): (r: Result<string, IssueError>)
    requires ValidPicks(picks) && DigestSize(sha256)
    ensures var v := Check(Strip(customerRaw), Strip(startRaw), Strip(endRaw), modules);
      (r.Ok? <==> v.Ok?) && (r.Err? ==> r.error == v.error)
    ensures r.Ok? ==> |r.value| % 4 == 0
  {
    match LicenceDocument(customerRaw, startRaw, endRaw, modules, picks, sha256)
    case Err(e) => Err(e)
    case Ok(doc) => Ok(Seal(PyIndented(2), AsciiOnly, doc))
  }

  /** The "Generate" button: reads the ticked modules off the panel, then issues. */
  method Generate(
    panel: ModulePanel.Panel, customerRaw: string, startRaw: string, endRaw: string,
    picks: seq<nat>, sha256: seq<byte> -> seq<byte>) returns (r: Result<string, IssueError>)
    requires panel.Valid() && ValidPicks(picks) && DigestSize(sha256)
    ensures r == GenerateLicense(customerRaw, startRaw, endRaw, ModulePanel.SelectedOf(panel.names, panel.flags), picks, sha256)
  {
    var modules := panel.Selected();
    r := GenerateLicense(customerRaw, startRaw, endRaw, modules, picks, sha256);
  }

  // ---------------------------------------------------------------------------------------------
  // What the checks promise
  // ---------------------------------------------------------------------------------------------

  /**
   * The checks in order: an all-whitespace customer id is reported first;
   * then an empty module list; then a date that names no calendar date,
   * whichever of the two it is; only when both dates are real does their
   * order count, and an end on or before the start is refused.
   */
  lemma ValidationCascade(customerRaw: string, startRaw: string, endRaw: string, modules: seq<string>)
    ensures var v := Check(Strip(customerRaw), Strip(startRaw), Strip(endRaw), modules);
      && (v == Err(CustomerRequired) <==> forall i :: 0 <= i < |customerRaw| ==> IsSpace(customerRaw[i]))
      && (v == Err(ModulesRequired) <==> Strip(customerRaw) != [] && modules == [])
      && (v == Err(DateFormat) <==>
            Strip(customerRaw) != [] && modules != [] && (!NamesDate(Strip(startRaw)) || !NamesDate(Strip(endRaw))))
      && (v == Err(DateOrder) <==>
            Strip(customerRaw) != [] && modules != [] && NamesDate(Strip(startRaw)) && NamesDate(Strip(endRaw))
            && Dates.Ordinal(Dates.ParseDate(Strip(endRaw)).value) <= Dates.Ordinal(Dates.ParseDate(Strip(startRaw)).value))
      && (v.Ok? <==>
            Strip(customerRaw) != [] && modules != [] && NamesDate(Strip(startRaw)) && NamesDate(Strip(endRaw))
            && Dates.Ordinal(Dates.ParseDate(Strip(startRaw)).value) < Dates.Ordinal(Dates.ParseDate(Strip(endRaw)).value))
  {
    StripEmptyIffAllSpace(customerRaw);
    DateCheckSpec(Strip(startRaw), Strip(endRaw));
  }

  /**
   * The document holds the five members customerId, startDate, endDate,
   * modules, signature in that order; the first four are the trimmed inputs
   * and the selected modules, and the signature is the 129-character prefix
   * followed by the hex SHA-256 of the sorted record. It is built exactly
   * when every check passes.
   */
  lemma IssuedDocument(
    customerRaw: string, startRaw: string, endRaw: string, modules: seq<string>,
    picks: seq<nat>, sha256: seq<byte> -> seq<byte>)
    requires ValidPicks(picks) && |picks| == 129 && DigestSize(sha256)
    ensures var r := LicenceDocument(customerRaw, startRaw, endRaw, modules, picks, sha256);
      var v := Check(Strip(customerRaw), Strip(startRaw), Strip(endRaw), modules);
      && (r.Ok? <==> v.Ok?)
      && (r.Err? ==> r.error == v.error)
      && (r.Ok? ==>
            && Keys(r.value) == ["customerId", "startDate", "endDate", "modules", "signature"]
            && r.value[..4] == Record(Strip(customerRaw), Strip(startRaw), Strip(endRaw), modules)
            && r.value[4].value.Str?
            && SignatureHolds(r.value[4].value.s, picks, sha256, r.value[..4])
            && AllLowerHex(r.value[4].value.s[129..]))
  {
    var r := LicenceDocument(customerRaw, startRaw, endRaw, modules, picks, sha256);
    if r.Ok? {
      var record := Record(Strip(customerRaw), Strip(startRaw), Strip(endRaw), modules);
      var sig := FullSignature(picks, sha256, record);
      assert r.value == Licence(Strip(customerRaw), Strip(startRaw), Strip(endRaw), modules, sig);
      SignatureLayout(picks, sha256, record);
      LicenceShape(Strip(customerRaw), Strip(startRaw), Strip(endRaw), modules, sig);
    }
  }

  /** The licence string is the indented, ASCII-escaped document, and opening it gives that document back. */
  lemma IssuedLicence(
    customerRaw: string, startRaw: string, endRaw: string, modules: seq<string>,
    picks: seq<nat>, sha256: seq<byte> -> seq<byte>)
    requires ValidPicks(picks) && DigestSize(sha256)
    ensures var r := GenerateLicense(customerRaw, startRaw, endRaw, modules, picks, sha256);
      var d := LicenceDocument(customerRaw, startRaw, endRaw, modules, picks, sha256);
      && (r.Ok? <==> d.Ok?)
      && (r.Ok? ==> Open(r.value) == Some(d.value) && r.value == Seal(PyIndented(2), AsciiOnly, d.value))
  {
    var d := LicenceDocument(customerRaw, startRaw, endRaw, modules, picks, sha256);
    if d.Ok? {
      OpenSeal(PyIndented(2), AsciiOnly, d.value);
    }
  }
}
