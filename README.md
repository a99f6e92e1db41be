# Licence issuance, modelled in Dafny

This project models the part of the licence makers that runs between the raw inputs and the Base64 licence string. There are three makers:

- **GUI maker** (`core-license_maker_gui.py`). It trims the customer id and the two dates. It reads the ticked modules off a checkbox panel. It checks the fields in a fixed order. It signs the four-field record with the SHA-256 of its key-sorted JSON, behind a 129-character random prefix. It hands out Base64 of the two-space-indented, ASCII-escaped JSON of the record plus that signature.
- **Company maker** (`company-license-maker.py`). It checks only the two dates, exactly as typed. It stamps the UTC issue time. It signs the two dates run together with SHA-256. It hands out Base64 of four-space-indented JSON that keeps non-ASCII characters as they are.
- **TypeScript maker** (`src/licence-maker.ts`). It checks nothing. It signs the compact `JSON.stringify` of the four fields with RSA. It puts 129 random hex digits in front of the hex signature. It hands out Base64 of the compact JSON of the fields plus that signature.

Modules:

- `Wrappers`: `Option` and `Result`.
- `Text`: Python's `str.strip` whitespace, decimal digits, zero padding, and the code-point order on strings.
- `Bytes`: lowercase hex rendering of bytes (`hexdigest()`, Node's `"hex"`) and its decoder.
- `Utf8`: UTF-8 encoding (RFC 3629) with a strict decoder.
- `Base64`: standard Base64 with `=` padding (section 4 of RFC 4648) and a strict decoder.
- `Dates`: `strptime(s, "%Y-%m-%d")`, the Gregorian calendar, day numbers, and the `strftime` issue-time stamp.
- `Json`: the flat objects the makers write, in three layouts and two escapings, plus Python's `sort_keys`.
- `JsonParse`: a reader that inverts every layout and escaping.
- `Envelope`: JSON, then UTF-8, then Base64, and the reader that undoes all three.
- `Issuance`: the shared refusal reasons, the date check, the hex digest, and the record shape.
- `ModulePanel`: the checkbox panel, as a class holding a flag map.
- `CoreIssuer`, `CompanyIssuer`, `TsIssuer`: the three makers.
- `CrossVariant`: the GUI maker and the TypeScript maker never sign the same bytes.

SHA-256, RSA signing, the random sources and the clock are parameters:

- `sha256`: a function on bytes. It is assumed to give 32 bytes.
- `rsaSign`: gives `None` where signing would throw, for example on a missing or bad key.
- `picks`: the indices `secrets.choice` drew from the 62-character alphabet.
- `random`: the 65 bytes of `randomBytes(65)`.
- `now`: the UTC clock reading.

Node's `"hex"` rendering writes each signature byte as two hex digits. So a 256-byte (2048-bit) RSA signature adds 512 hex characters after the 129-character padding. The model renders every signature byte this way, whatever the key size.

## Model

| member | source | states |
|---|---|---|
| ModulePanel.Panel.constructor | core-license_maker_gui.py:305-310 | The panel holds one flag per catalog module, in catalog order, ticked exactly for the ten default modules. |
| ModulePanel.InitialSelection | core-license_maker_gui.py:305-310 | Before any click, the selection is the default list, in that order. |
| ModulePanel.Panel.Selected | core-license_maker_gui.py:113-119 | The loop returns the names whose flag is set, in catalog order. |
| ModulePanel.SelectedMembership | core-license_maker_gui.py:113-119 | A module is selected exactly when it is in the catalog and its flag is set. |
| ModulePanel.SelectedNoDuplicates | core-license_maker_gui.py:113-119 | The selection never repeats a module. |
| ModulePanel.SelectedInOrder | core-license_maker_gui.py:113-119 | Selected modules keep their relative catalog order. |
| ModulePanel.Panel.SelectAll | core-license_maker_gui.py:121-124 | Every flag becomes true; the set of modules is unchanged; the panel stays well formed. |
| ModulePanel.SelectAllSelectsCatalog | core-license_maker_gui.py:121-124 | After "select all", the selection is the whole catalog. |
| ModulePanel.Panel.DeselectAll | core-license_maker_gui.py:126-129 | Every flag becomes false; the set of modules is unchanged; the panel stays well formed. |
| ModulePanel.DeselectAllSelectsNothing | core-license_maker_gui.py:126-129 | After "deselect all", the selection is empty. |
| ModulePanel.CatalogNoDuplicates | core-license_maker_gui.py:16-32 | The catalog has 15 modules and no repeats. |
| CoreIssuer.Check | core-license_maker_gui.py:137-156 | An empty trimmed customer id, and only that, gives the customer error. Otherwise an empty module list, and only that, gives the modules error. Otherwise the result is the date check's. Success gives the two parsed dates, start strictly before end. |
| CoreIssuer.SignedText | core-license_maker_gui.py:109 | The signed text is JSON that reads back as the key-sorted record. |
| CoreIssuer.FullSignature | core-license_maker_gui.py:167-169 | One character per draw from the random prefix, then 64 lowercase hex digits that decode to the SHA-256 of the UTF-8 of the signed text. |
| CoreIssuer.LicenceDocument | core-license_maker_gui.py:131-175 | A document exists exactly when the checks on the trimmed fields pass, and otherwise carries their error. It has five members: the record of the trimmed fields and modules, then signature. |
| CoreIssuer.GenerateLicense | core-license_maker_gui.py:131-179 | A licence exists exactly when the checks on the trimmed fields pass, and otherwise carries their error. Its length is a multiple of four. |
| CoreIssuer.RandomString | core-license_maker_gui.py:100-104 | Exactly one character per draw, each an ASCII letter or digit. |
| CoreIssuer.RandomStringCovers | core-license_maker_gui.py:100-104 | Every string of letters and digits is some outcome of the draws. |
| CoreIssuer.SignedKeyOrder | core-license_maker_gui.py:109 | `sort_keys` writes the record's keys in the order customerId, endDate, modules, startDate, with unchanged values. |
| CoreIssuer.SignatureLayout | core-license_maker_gui.py:106-111 | The signature has 193 characters: the 129 random letters or digits, then 64 lowercase hex digits that decode to the SHA-256 of the UTF-8 of the sorted JSON record. |
| CoreIssuer.ValidationCascade | core-license_maker_gui.py:132-156 | Each error holds exactly when its condition holds. An all-whitespace customer id gives the customer error. Otherwise an empty module list gives the modules error. Otherwise a date that names no calendar date gives the format error, whichever date it is. Otherwise an end day on or before the start day gives the order error. Success holds exactly when none of these apply. |
| CoreIssuer.IssuedDocument | core-license_maker_gui.py:131-175 | A document is built exactly when every check passes; otherwise the first failing check is the error. The document lists customerId, startDate, endDate, modules, signature, in that order. The first four are the trimmed inputs and the modules. The signature is 193 characters: the random prefix, then 64 lowercase hex digits that decode to the SHA-256 of the UTF-8 of the sorted JSON of those four members. |
| CoreIssuer.IssuedLicence | core-license_maker_gui.py:177-179 | The licence is Base64 of the UTF-8 of the indented, ASCII-escaped document; opening it gives the document back. |
| CoreIssuer.Generate | core-license_maker_gui.py:131-135 | The button's result is the licence issued for the modules the panel currently selects. |
| CompanyIssuer.LegacySignature | company-license-maker.py:80 | 64 lowercase hex digits that decode to the SHA-256 of the UTF-8 of the two dates run together. |
| CompanyIssuer.LicenceDocument | company-license-maker.py:63-81 | A record exists exactly when the untrimmed date check passes, and otherwise carries its error. It has four members, and the first two hold the dates verbatim. |
| CompanyIssuer.GenerateLicense | company-license-maker.py:63-83 | A licence exists exactly when the untrimmed date check passes, and otherwise carries its error. Its length is a multiple of four. |
| CompanyIssuer.IssuedDocument | company-license-maker.py:63-81 | Only the two date checks can refuse, and they see the dates untrimmed. The record lists startDate, endDate, issuedAt, signature in that order, with the dates verbatim. issuedAt is the 20-character UTC stamp of `now` (see Dates.FormatUtc), whose first ten characters parse back to the issue date. The signature is 64 lowercase hex digits decoding to the SHA-256 of the two dates run together. |
| CompanyIssuer.DateRecordShape | company-license-maker.py:76-81 | The record has exactly the keys startDate, endDate, issuedAt, signature, holding the given texts. |
| CompanyIssuer.NoTrimming | company-license-maker.py:64-68 | A date typed with a leading space is a format error; the same date without it is accepted. |
| CompanyIssuer.IssuedLicence | company-license-maker.py:82-83 | The licence is Base64 of the UTF-8 of the four-space-indented, raw-escaped record; opening it gives the record back. |
| TsIssuer.SignedText | src/licence-maker.ts:17-24 | The signed text is JSON that reads back as customerId, startDate, endDate, modules, in that order, unchanged. |
| TsIssuer.Padding | src/licence-maker.ts:32-33 | 129 lowercase hex digits. |
| TsIssuer.LicenceDocument | src/licence-maker.ts:11-38 | A document exists exactly when the signer succeeds; otherwise the error is the signer's failure. It has five members, the first four being the fields verbatim. |
| TsIssuer.GenerateLicense | src/licence-maker.ts:11-44 | A licence exists exactly when the signer succeeds; otherwise the error is the signer's failure. Its length is a multiple of four. |
| TsIssuer.PaddingShape | src/licence-maker.ts:32-33 | The padding is 129 lowercase hex digits: all 64 first bytes, then the high digit of the last byte. |
| TsIssuer.PaddingCovers | src/licence-maker.ts:32-33 | Every string of 129 lowercase hex digits is the padding of some 65 bytes. |
| TsIssuer.SignatureSplit | src/licence-maker.ts:29-37 | The signature field is 129 + 2n lowercase hex digits for an n-byte signature. Its first 129 are the padding and the rest decodes to exactly the RSA signature. |
| TsIssuer.IssuedDocument | src/licence-maker.ts:11-38 | No field is validated: a document is built exactly when the signer succeeds. It lists the four fields verbatim and then the signature. The signature is the padding, then the hex of the RSA signature over the UTF-8 of the compact JSON of the four fields. |
| TsIssuer.IssuedLicence | src/licence-maker.ts:41-42 | The licence length is a multiple of four; it is Base64 of the UTF-8 of the compact document, and opening it gives the document back. |
| CrossVariant.SignedBytesDiffer | core-license_maker_gui.py:109 | For every choice of the four fields, byte 14 of the bytes the GUI maker hashes is a space, and byte 14 of the bytes src/licence-maker.ts:24 signs is a quote. So the two byte strings differ. |
| Issuance.CheckDates | core-license_maker_gui.py:148-156 | A format error exactly when a date does not parse. An order error exactly when both parse and the start is not before the end. No other error. Success gives the two parsed dates, start before end. |
| Issuance.DateCheckSpec | core-license_maker_gui.py:148-156 | The date check gives a format error exactly when a text names no date. Otherwise it gives an order error exactly when the end day is not after the start day, equal days included. Otherwise it gives the two parsed dates, start strictly before end. It gives no other error. |
| Issuance.NamesDateIffParses | company-license-maker.py:66-68 | `strptime` succeeds exactly on the spellings of real calendar dates. |
| Issuance.HexDigest | core-license_maker_gui.py:110-111 | The hex digest is 64 lowercase hex digits that decode to the SHA-256 of the text's UTF-8. |
| Issuance.LicenceShape | core-license_maker_gui.py:172-175 | Appending the signature keeps the four record members in order and puts signature last. |
| Dates.ParseDate | core-license_maker_gui.py:149-150 | Whatever `strptime("%Y-%m-%d")` returns is a valid Gregorian date; ParseDateSpec says exactly which strings parse. |
| Dates.ParseDateSpec | core-license_maker_gui.py:149-150 | `strptime("%Y-%m-%d")` gives a date exactly for a valid Gregorian date spelled with four year digits and a one- or two-digit month and day. |
| Dates.ParseFormat | core-license_maker_gui.py:149-150 | The canonical `YYYY-MM-DD` spelling of every valid date parses back to it. |
| Dates.BeforeIffOrdinalLess | core-license_maker_gui.py:151 | Comparing parsed dates field by field is the same as comparing day numbers. |
| Dates.BeforeTrichotomy | core-license_maker_gui.py:151 | Two valid dates are equal or exactly one is before the other. |
| Dates.FormatUtc | company-license-maker.py:79 | The issue time is 20 characters: the date's `YYYY-MM-DD` spelling, which parses back to the date, then 'T', the zero-padded hour, ':', minute, ':', second, and 'Z'. Each two-digit field reads back as its value. |
| Dates.FormatUtcInjective | company-license-maker.py:79 | Two valid times with the same stamp are the same time: the stamp loses nothing. |
| Json.Serialize | core-license_maker_gui.py:178 | The document is at least two characters, opening with '{' and closing with '}'. JsonParse.DocumentRoundTrip says it loses nothing. |
| Json.SortKeysSortsAndPermutes | core-license_maker_gui.py:109 | `sort_keys` returns the same members, ordered by key. |
| Json.InsertPermutes | core-license_maker_gui.py:109 | One insertion step adds exactly the new member and keeps the others. |
| Json.InsertSorted | core-license_maker_gui.py:109 | One insertion step keeps a key-ordered object key-ordered. |
| Json.EscapeAscii | core-license_maker_gui.py:178 | With ASCII escaping, every written character is printable ASCII. |
| Json.EscapeChar | company-license-maker.py:82 | With ASCII escaping every character written is printable ASCII. With raw escaping a character is written as itself exactly when it is not a quote, a backslash or a control character. |
| Json.EscapePlainAscii | src/licence-maker.ts:24 | Printable ASCII other than the quote and the backslash is written unchanged, under both escapings. |
| JsonParse.DocumentRoundTrip | src/licence-maker.ts:41 | For every layout and escaping, reading the written JSON gives back the object, its member order and every string. |
| Envelope.Seal | core-license_maker_gui.py:179 | The licence length is a multiple of four, and every character is from the Base64 alphabet or is '='. |
| Envelope.OpenSeal | company-license-maker.py:82-83 | Base64-decoding, UTF-8-decoding and parsing a licence gives its document back. |
| Base64.Encode | core-license_maker_gui.py:179 | Each group of three bytes becomes four alphabet characters, and a short last group is padded with '='. Its length, alphabet and inverse are stated by EncodeLength, EncodeAlphabet and DecodeEncode. |
| Base64.EncodeLength | src/licence-maker.ts:42 | The output has four characters for every started group of three bytes. |
| Base64.EncodeAlphabet | src/licence-maker.ts:42 | Every output character is from the alphabet or is '='; padding appears only in the last two positions. |
| Base64.DecodeEncode | core-license_maker_gui.py:179 | Decoding the encoding of any bytes gives the bytes back. |
| Utf8.Encode | core-license_maker_gui.py:110 | At least one byte per character; DecodeEncode says it loses nothing. |
| Utf8.DecodeEncode | core-license_maker_gui.py:110 | Decoding the UTF-8 of any string gives the string back. |
| Utf8.EncodeAppend | src/licence-maker.ts:42 | UTF-8 encoding distributes over concatenation. |
| Bytes.HexEncode | core-license_maker_gui.py:111 | Two lowercase hex digits per byte. |
| Bytes.HexRoundTrip | src/licence-maker.ts:29 | Decoding the hex rendering of any bytes gives the bytes back. |
| Bytes.HexDecodeLower | src/licence-maker.ts:32 | Every even-length lowercase hex string is the rendering of the bytes it decodes to. |
| Text.Strip | core-license_maker_gui.py:132-134 | The result is no longer than the input, and it neither starts nor ends with whitespace. |
| Text.StripIsMaximalSlice | core-license_maker_gui.py:132-134 | `strip()` keeps a slice of the input. Everything outside the slice is whitespace, and the slice's own ends are not. |
| Text.StripEmptyIffAllSpace | core-license_maker_gui.py:138 | A field strips to nothing exactly when it is all whitespace. |
| Text.StripIdempotent | core-license_maker_gui.py:132-134 | Stripping twice is stripping once. |

## Left out

- The customtkinter/tkinter user interface is left out, as presentation only. That covers widgets and layout, `update_ui_texts`, `switch_language`, the `texts` tables, `lang` and `font_exists`. `messagebox` reporting becomes the `IssueError` result.
- `save_license`, `saveLicenseToFile`, the file dialogs and reading `private_key.pem` are left out, as file I/O. A missing or bad key is the signer returning `None`.
- The internals of SHA-256 and RSA (PKCS#1 v1.5) are parameters. The model does not prove digests or signatures are unforgeable. It models only how the makers render and place them.
- `secrets.choice`, `crypto.randomBytes` and `datetime.utcnow` are nondeterministic, so they become inputs.
- The TypeScript `demo` code and the module-level calls that run it are left out, as a driver around `generateLicense`.
- Dafny's `char` is a Unicode scalar value. Lone surrogate code units, which Python and JavaScript strings can hold, are not modelled. JavaScript's escaping of such units is therefore not modelled either.
- Dates.ParseDateSpec: `strptime` also accepts non-ASCII Unicode digits, and a single-digit day written with a leading space. Both are library quirks; the model accepts only ASCII digits.
- Dates.FormatUtc: pads the year to four digits. `strftime("%Y")` on some platforms writes years below 1000 with fewer digits; the clock never reads such a year.
- `JsonParse`, `Envelope.Open`, `Base64.Decode`, `Utf8.Decode` and `Bytes.HexDecode` are readers the makers do not contain. They exist as the partners that show nothing is lost in writing a licence.
- The JSON model covers the flat objects of string and string-list fields the makers write, not JSON in general.
