/**
 * What the issuers share: the reasons a licence is refused, the check on the
 * two dates of the validity period, the hex rendering of a SHA-256 digest,
 * and the signed record with its signature appended.
 */
module Issuance {
  import opened Wrappers
  import opened Bytes
  import Utf8
  import Dates
  import opened Json

  /** Why no licence was produced. */
  datatype IssueError =
    | CustomerRequired
    | ModulesRequired
    | DateFormat
    | DateOrder
    | SignerFailed

  /**
   * Both dates through `strptime("%Y-%m-%d")`, then `end <= start` refused:
   * a date that does not parse is a format error whichever of the two it is,
   * and the order is looked at only when both parse.
   */
  function CheckDates(startDate: string, endDate: string): (r: Result<(Dates.Date, Dates.Date), IssueError>)
    ensures r == Err(DateFormat) <==> Dates.ParseDate(startDate).None? || Dates.ParseDate(endDate).None?
    ensures r == Err(DateOrder) <==>
      && Dates.ParseDate(startDate).Some? && Dates.ParseDate(endDate).Some?
      && !Dates.Before(Dates.ParseDate(startDate).value, Dates.ParseDate(endDate).value)
    ensures r.Err? ==> r.error == DateFormat || r.error == DateOrder
    ensures r.Ok? ==>
      && Dates.ParseDate(startDate) == Some(r.value.0) && Dates.ParseDate(endDate) == Some(r.value.1)
      && Dates.Before(r.value.0, r.value.1)
  {
    match (Dates.ParseDate(startDate), Dates.ParseDate(endDate))
    case (Some(start), Some(end)) =>
      if !Dates.Before(start, end) then Err(DateOrder) else Ok((start, end))
    case _ => Err(DateFormat)
  }

  /** `s` is a spelling `strptime` accepts of some real calendar date. */
  ghost predicate NamesDate(s: string) {
    exists d :: Dates.IsValid(d) && Dates.Spells(s, d)
  }

  lemma NamesDateIffParses(s: string)
    ensures NamesDate(s) <==> Dates.ParseDate(s).Some?
  {
    if Dates.ParseDate(s).Some? {
      Dates.ParseDateSpec(s, Dates.ParseDate(s).value);
    }
    if NamesDate(s) {
      var d :| Dates.IsValid(d) && Dates.Spells(s, d);
      Dates.ParseDateSpec(s, d);
    }
  }

  /**
   * The date check in terms of the calendar: a format error exactly when one
   * of the texts names no date; otherwise an order error exactly when the end
   * day is not after the start day (equal days included); otherwise the two
   * dates. No other error comes out of it.
   */
  lemma DateCheckSpec(startDate: string, endDate: string)
    ensures var v := CheckDates(startDate, endDate);
      && (v.Err? ==> v.error == DateFormat || v.error == DateOrder)
      && (v == Err(DateFormat) <==> !NamesDate(startDate) || !NamesDate(endDate))
      && (v == Err(DateOrder) <==>
            NamesDate(startDate) && NamesDate(endDate)
            && Dates.Ordinal(Dates.ParseDate(endDate).value) <= Dates.Ordinal(Dates.ParseDate(startDate).value))
      && (v.Ok? ==>
            && v.value == (Dates.ParseDate(startDate).value, Dates.ParseDate(endDate).value)
            && Dates.Ordinal(v.value.0) < Dates.Ordinal(v.value.1))
  {
    NamesDateIffParses(startDate);
    NamesDateIffParses(endDate);
    var ps := Dates.ParseDate(startDate);
    var pe := Dates.ParseDate(endDate);
    if ps.Some? && pe.Some? {
      Dates.BeforeIffOrdinalLess(ps.value, pe.value);
    }
  }

  ghost predicate DigestSize(sha256: seq<byte> -> seq<byte>) {
    forall m :: |sha256(m)| == 32
  }

  /** `hashlib.sha256(text.encode("utf-8")).hexdigest()`: 64 lowercase hex digits that decode to the digest. */
  function HexDigest(sha256: seq<byte> -> seq<byte>, text: string): (h: string)
    requires DigestSize(sha256)
    ensures |h| == 64 && AllLowerHex(h)
    ensures HexDecode(h) == Some(sha256(Utf8.Encode(text)))
  {
    HexRoundTrip(sha256(Utf8.Encode(text)));
    HexEncode(sha256(Utf8.Encode(text)))
  }

  /** The four signed fields, in the order both the GUI record literal and the TypeScript `License` object list them. */
  function Record(customerId: string, startDate: string, endDate: string, modules: seq<string>): Object {
    [ Member("customerId", Str(customerId)),
      Member("startDate", Str(startDate)),
      Member("endDate", Str(endDate)),
      Member("modules", StrList(modules)) ]
  }

  /** The document the GUI and TypeScript makers hand out: the record with the signature appended as a fifth member. */
  function Licence(customerId: string, startDate: string, endDate: string, modules: seq<string>, signature: string): Object {
    Record(customerId, startDate, endDate, modules) + [Member("signature", Str(signature))]
  }

  /** The licence document lists customerId, startDate, endDate, modules, signature, in that order. */
  lemma LicenceShape(customerId: string, startDate: string, endDate: string, modules: seq<string>, signature: string)
    ensures var doc := Licence(customerId, startDate, endDate, modules, signature);
      && Keys(doc) == ["customerId", "startDate", "endDate", "modules", "signature"]
      && doc[..4] == Record(customerId, startDate, endDate, modules)
      && doc[4] == Member("signature", Str(signature))
  {
    var doc := Licence(customerId, startDate, endDate, modules, signature);
    assert doc[4..][1..] == [] && doc[3..][1..] == doc[4..] && doc[2..][1..] == doc[3..] && doc[1..][1..] == doc[2..];
    assert Keys(doc[4..]) == ["signature"];
    assert Keys(doc[3..]) == ["modules", "signature"];
    assert Keys(doc[2..]) == ["endDate", "modules", "signature"];
    assert Keys(doc[1..]) == ["startDate", "endDate", "modules", "signature"];
  }
}
