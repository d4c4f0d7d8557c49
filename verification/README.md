# Object storage requests and responses

This project models the parts of a sans-I/O client for Azure Blob Storage and S3 that are easy to
get wrong by one byte, and proves what they promise.

**The request template engine.** An operation lays its request out once, as a run of calls:
sections, text, holes, field marks, query parameters. One pass (`Builders`) compiles the layout to a
byte image and a table of at most 96 steps. Each request is then written in one of two ways: a pass
that replays the layout against the image (`Encoders`), or a walk over the table alone (`Engines`).
`Layouts.Rendered` is the independent reference: the layout with its holes filled, as a pure
function that knows of no image, table, step or cursor. The main results (`TemplateTheorems`) tie
both interpreters to it for every layout and every request, with the lengths that are written before
what they measure, the URL that is repeated, the check of its length (`TemplateUrls`,
`TemplateUrlLimits`), the query read back (`TemplateQueries`), what building a layout ends with
(`TemplateLimits`), the stored form and the fingerprint. What a request is returned with is stated
on its buffer alone: which bytes each section, the fields and each placeholder are (`TemplateParts`,
`TemplateSpans`). `HoleValues` writes the values that both services share, and `HoleReaders` reads
each of them back. The proof (`TemplateCorrectness`) is a simulation between the state that the
compiler is in, the rendering, the replay and the walk.

**Wire codecs**: percent-encoding and its undoing in place (`Url`), decimal numbers (`Numbers`),
base64 and the encoded words of RFC 2047 (`Encodings`, `EncodedWords`, `Checksums`),
`multipart/mixed` bodies and the responses in them (`Multiparts`, `HttpMessages`), ranges and
`Content-Range` (`ContentRanges`), the header names that a head keeps (`ResponseHeads`), and the
field lines of a request (`RequestFields`). `KeptNames` says what a head keeps by the names alone,
and `KnownAnswers` holds the texts of known values.

**Arithmetic and streaming state**: dates (`Calendars`, `Times`, `DateReaders`), CRCs through a
table (`Crc`), SHA-256 by blocks and HMAC from copies of it (`Sha256`, `Sigv4`).

Main conventions:

- The target has 64-bit `usize`. Lengths that the source wraps, saturates or truncates do so here:
  positions saturate, 32-bit step lengths wrap, CRC registers are proved to keep their width.
- A slice that is only read is an immutable sequence. A buffer that is written in place is an
  array, and an object whose methods update its fields is a class.
- What a request fills its holes with is a `Filler`: any function from holes to optional bytes,
  with what it says of its body's length. Closures that write text are the bytes they write.
- Methods are proved against functions, and the functions carry the promises. `Builders.Builder`
  tracks `Passes.Build`, `Encoders.EncodePass` tracks `Passes.Encode`, `Engines.WalkTable` tracks
  `Passes.WalkTo`.

Findings, each with its exact condition or a concrete witness among the lemmas:

- `finish` checks the number of steps before it ends the last sections, which adds steps. A layout
  whose steps fit the table before and not after makes it index past the table
  (`TemplateLimits.LayoutPanicsExactly`, `TemplateTheorems.HolesFinish`).
- A table whose layout never marks its fields does not survive being stored and loaded
  (`TemplateTheorems.StoredTableReadsBack`, `TemplateTheorems.UnmarkedTableIsRefused`).
- `url_bound` does not count `source_revision`, which a `CopyId` hole writes first, and counts each
  text once. Over the layouts whose URLs hold its texts and at most 25 separators, it bounds every
  request's URL exactly if the URL names no text twice and no `CopyId`
  (`TemplateUrlLimits.UrlIsBoundedExactly`). With a `CopyId`, a URL past the limit goes unmeasured
  (`TemplateUrls.SourceRevisionIsNotCounted`), unless the template's own text always makes it be
  measured (`TemplateUrlLimits.LongUrlsAreRefusedExactly`). No operation sends a source revision to a
  template with a `CopyId`, so this is latent.
- `MixedContentType` writes a boundary without quotes, so a valid boundary reads back exactly if it
  is a token (`Multiparts.BoundaryReadsBack`). This is latent too: the one boundary that is written
  is a token (`Multiparts.BatchBoundaryReadsBack`), and `a b` is one that would not be read back
  (`Multiparts.SpacedBoundaryIsNotReadBack`).
- `http_date_ms` documents that it refuses what is not an RFC 1123 date, but takes days that no
  month has, leap seconds and any day of the week. A text it takes is the text of the instant it
  gives exactly if its day exists, has that weekday, and has no leap second
  (`DateReaders.ReadThenWritten`, `DateReaders.ReadsDaysThatDoNotExist`). `iso8601_ms` takes such days
  and leap seconds too; what it takes is the text of the instant it gives, with its own fraction,
  exactly if day and time exist (`DateReaders.IsoReadThenWritten`,
  `DateReaders.IsoReadsWhatDoesNotExist`).
- `decode_base64` takes digits whose unused bits are set; encoding gives the text back exactly if
  they are zero (`Encodings.EncodingUndoesDecoding`, `Encodings.NotCanonicalIsRead`).
- When `Content-Range` states no total, only the start of the answer is compared with the range. The
  window accepted is the one asked for exactly if the range names its end and the answer ends there
  (`ContentRanges.WindowWithoutSizeIsRequested`); ten bytes asked for may be answered with a hundred
  (`ContentRanges.LongerWindowIsAccepted`).

## Model

| member | source | states |
|---|---|---|
| TemplateTheorems.RequestsAreRendered | crates/object-storage-proto/src/template.rs:1044-1155 | For every template, filler and replayed layout of the same calls: the replay and the table walk give the same outcome, it is the rendering of the layout, and the Content-Length written is the length of the body written. |
| TemplateTheorems.RefusedExactly | crates/object-storage-proto/src/template.rs:928-1000 | A request is refused if and only if the layout names a hole that it has no value for, or the layout has a hole in its body and the request writes no body. |
| TemplateSpans.PartsAreNamed | crates/object-storage-proto/src/template.rs:884-920 | For every request delivered from a template: the URL, head, canonical and body spans name, one after the other and to the end, exactly the bytes that the layout writes in those sections; a body is named exactly if the layout writes one; and the placeholder spans name, in the buffer, zeros or padding at the places of the layout's holes: the last signature, the first three body hashes, the first two checksums. |
| TemplateSpans.WalkedPartsAreNamed | crates/object-storage-proto/src/template.rs:1008-1032 | So of every request that the table alone writes. |
| TemplateSpans.FieldsAreNamed | crates/object-storage-proto/src/template.rs:898-906 | The field lines run from where the layout marks them to the empty line that ends the head, and from an end of the head if the mark is in another section. |
| TemplateSpans.LengthIsNamed | crates/object-storage-proto/src/template.rs:965-967 | The number that a request writes as its body's length, read from the buffer, is the length of the body in the buffer. |
| TemplateSpans.FaultsAre | crates/object-storage-proto/src/template.rs:1259-1266 | A request is at fault exactly if it lacks a value that its layout names, or a body. |
| TemplateSpans.RoomIsEnough | crates/object-storage-proto/src/template.rs:1018-1032 | The room that a refusal states is enough, and nothing less is. |
| TemplateParts.SectionIsBetween | crates/object-storage-proto/src/template.rs:884-896 | A section is what the calls between its start and the next section's write. |
| TemplateParts.MarksArePlaces | crates/object-storage-proto/src/template.rs:962-982 | For every layout, a request records its last signature, its first three body hashes and its first two checksums where they stand, and nothing else. |
| TemplateParts.PlaceIsWhereCallsEnd | crates/object-storage-proto/src/template.rs:962-982 | A hole that stands alone stands where the calls before it end. |
| TemplateParts.HolesStand | crates/object-storage-proto/src/template.rs:928-1000 | At each place of a hole stands its text, whatever is written after it: a placeholder, the body's length, or the request's value. |
| TemplateParts.TextStands | crates/object-storage-proto/src/template.rs:602-621 | A text stands where the calls before it end. |
| TemplateParts.OptionalIsSent | crates/object-storage-proto/src/template.rs:987-998 | An optional parameter is sent whole, its text encoded, or left out if it has no text or an empty one. |
| TemplateParts.TemplateHasBody | crates/object-storage-proto/src/template.rs:439-442 | A template is marked as holding a body exactly if its layout writes text or a hole there. |
| TemplateTheorems.UrlLenIsUrlSpan | crates/object-storage-proto/src/template.rs:1088-1099 | The URL length that a dry walk counts, with no body measured, is the length of the URL that the request then writes, for any two fillers that agree at the holes of the URL: measuring with the values alone is enough. |
| TemplateTheorems.SectionsOwnTheirHolesAndOne | crates/object-storage-proto/src/template.rs:359-403 | Each section of a built template owns exactly as many steps as its layout has holes there, separators included once a parameter is optional, and one more. |
| TemplateHoles.StepsHoldTheirHoles | crates/object-storage-proto/src/template.rs:602-633 | The steps of the sections before any one hold exactly the holes that the layout writes there, separators included, in order. |
| TemplateHoles.BodyHoldsHole | crates/object-storage-proto/src/template.rs:736-746 | The steps of a template's body hold a hole exactly if its layout writes one there. |
| TemplateTheorems.StoredTableReadsBack | crates/object-storage-proto/src/template.rs:543-591 | A finished table, stored and loaded, is itself if its layout marked the fields, and is refused if it did not. |
| TemplateTheorems.UnmarkedTableIsRefused | crates/object-storage-proto/src/template.rs:559-591 | A template of up to 90 holes alone, whose fields are not marked, is stored and then refused. |
| TemplateTheorems.TemplateReadsBack | crates/object-storage-proto/src/template.rs:684-703 | The steps and text that a finished table finds in bytes that start with its template are those that were built, and the bytes pass its check. |
| TemplateTheorems.FinishPanicsExactly | crates/object-storage-proto/src/template.rs:407-454 | `finish` indexes past its table exactly in a state whose steps fit before the last sections end and do not fit after. |
| TemplateLimits.LayoutPanicsExactly | crates/object-storage-proto/src/template.rs:407-454 | For every ordered layout: `finish` panics if and only if the names fit, the steps before the last sections end fit the table, and its holes and six do not; more steps before that, or a longer name, are refused. |
| TemplateLimits.StepsAreCounted | crates/object-storage-proto/src/template.rs:595-673 | Before its last sections end, a layout has a step for each hole, for each section ended and for text left open, and a scattered text exactly if an optional parameter's name is longer than 255 bytes. |
| TemplateTheorems.HolesFinish | crates/object-storage-proto/src/template.rs:407-454 | A layout of n holes is well-formed, and is a template of its steps alone up to 90 in any buffer that holds them, is refused past 96, and panics between. |
| TemplateCorrectness.CompilerCorrect | crates/object-storage-proto/src/template.rs:594-674 | For every well-formed layout and source of its sealed template, replay, walk and rendering agree, and every section end that the rendering has is recorded where the walk passes it. |
| TemplateCorrectness.SimulateAll | crates/object-storage-proto/src/template.rs:594-674 | One run of calls keeps builder, rendering, replay and walk in step, or makes both interpreters fail together. |
| TemplateCorrectness.SimulateHole | crates/object-storage-proto/src/template.rs:1224-1282 | A hole taken by the replay and walked in the table gives the rendering's request, or fails in both when there is no value. |
| TemplateCorrectness.FailureStays | crates/object-storage-proto/src/template.rs:1259-1266 | A replay that failed stays failed through every later call. |
| TemplateLengths.ContentLengthIsBodySpan | crates/object-storage-proto/src/template.rs:722-770 | The body length measured before writing is the body span written, for fixed text, a stated length that is right and a counting walk; it is refused, whatever is stated, exactly when the body is each request's own and the request writes none. |
| TemplateLengths.UrlLengthIsUrlSpan | crates/object-storage-proto/src/template.rs:1088-1099 | The same length of the URL, over any sealed template. |
| TemplateLengths.WalksAlike | crates/object-storage-proto/src/template.rs:1124-1148 | A walk depends on its filler only at the holes of its steps. |
| TemplateLengths.BodyWalks | crates/object-storage-proto/src/template.rs:749-770 | Two walks of a body from one cursor, whatever stands before them, write as many bytes, and refuse alike. |
| TemplateUrls.LongUrlsAreRefused | crates/object-storage-proto/src/azure/template.rs:821-837 | For every template and layout, and any filler to measure with that agrees at the holes of the URL: the check says rightly whether a written URL is past the limit if and only if the URL is within it or the bound is past it. |
| TemplateUrls.UrlIsBounded | crates/object-storage-proto/src/template.rs:1691-1713 | For a layout whose URL holds the bound's texts, each once and never a block and an upload, and at most 25 separators: the fixed text, the bound, and the room of a source revision if the URL has a `CopyId` hole, are together at least the URL's length. |
| TemplateUrlLimits.UrlIsBoundedExactly | crates/object-storage-proto/src/template.rs:1691-1713 | Over the layouts whose URL holds the bound's texts and at most 25 separators, the fixed text and the bound are at least the URL's length in every request if and only if the URL names no text twice, not a block and an upload, and no `CopyId`. |
| TemplateUrlLimits.LongUrlsAreRefusedExactly | crates/object-storage-proto/src/azure/template.rs:821-837 | Over those layouts, the check is right of every request if and only if the URL has no `CopyId` hole, or the template's fixed text and the least room that its requests have are past the limit. |
| TemplateUrls.UrlTakes | crates/object-storage-proto/src/template.rs:678-680 | A URL takes at least the room of its holes, and at most that and the template's fixed text for it. |
| TemplateUrls.SourceRevisionIsNotCounted | crates/object-storage-proto/src/template.rs:1666-1713 | A concrete template and request whose URL is past the limit and accepted, as the bound does not count its source revision. |
| TemplateUrls.CheckUrl | crates/object-storage-proto/src/azure/template.rs:824-837 | Measures only where the bound does not do, and gives the verdict of the model. |
| HoleValues.UrlBound | crates/object-storage-proto/src/template.rs:1693-1713 | The wrapping sum of the room of the texts. |
| HoleValues.WriteValue | crates/object-storage-proto/src/template.rs:1615-1689 | Writes what the hole stands for, or refuses a hole that is none of the values or has no value; `HoleReaders.ValueMeans` says how each reads back. |
| HoleReaders.ValueMeans | crates/object-storage-proto/src/template.rs:1615-1689 | A hole writes something exactly if its own value is there, and that reads back as it: a key as its path, segment by segment, a text from a query, a range as what it asks for, a date as its instant, a number as itself. |
| HoleReaders.OnlyOwnValues | crates/object-storage-proto/src/template.rs:1615-1689 | What a hole writes does not depend on the other values. |
| HoleReaders.OptionalsAreTheirTexts | crates/object-storage-proto/src/template.rs:1718-1727 | Each optional parameter stands for its own text. |
| HoleReaders.KeyIsPath | crates/object-storage-proto/src/url.rs:176-190 | An encoded key decodes to the key, and its segments to the key's segments. |
| TemplateMeaning.QueryIsJoined | crates/object-storage-proto/src/template.rs:642-673 | The query section is `?` and the `&`-join of exactly the parameters sent, for every choice of optional ones left out. |
| TemplateQueries.WrittenQueryReads | crates/object-storage-proto/src/template.rs:642-673 | The query of a request, split at `&` and at the first `=` and decoded, gives exactly the parameters sent, in order, with the text of each optional one. |
| TemplateQueries.EncodedValueReads | crates/object-storage-proto/src/url.rs:176-194 | A percent-encoded key or value holds no `&` and decodes to its text in both modes. |
| TemplateMeaning.UrlIsRepeated | crates/object-storage-proto/src/template.rs:944-961 | After the URL, the holes of the request line and the canonical request write the URL's own path and query bytes, the query without its `?`. |
| TemplateMeaning.SectionsFollowEachOther | crates/object-storage-proto/src/template.rs:884-920 | Section ends ascend from the start of the request to its end, so the sections partition the bytes written. |
| Passes.EncodingReadsNoText | crates/object-storage-proto/src/template.rs:1269-1314 | A replay's outcome depends on no text of the layout it is run with. |
| Builders.Builder.AddText | crates/object-storage-proto/src/template.rs:602-621 | Text extends the open run or starts one, in the image and in the table. |
| Builders.Builder.AddHole | crates/object-storage-proto/src/template.rs:623-633 | A hole closes the open run as one step of its section. |
| Builders.Builder.MarkFields | crates/object-storage-proto/src/template.rs:635-640 | Marking the fields records the step that is open and the offset in its run. |
| Builders.Builder.Param | crates/object-storage-proto/src/template.rs:642-673 | A parameter is text, text and a hole, or a hole with its name stored in the image, with its separator fixed or left to the request. |
| Builders.Builder.Section | crates/object-storage-proto/src/template.rs:595-600 | Starting a section ends those before it, each with a step that carries its bit. Starting the current one again only closes its open step. |
| Builders.Builder.EndSections | crates/object-storage-proto/src/template.rs:359-368 | Ends every section before the one given. |
| Builders.Builder.Stash | crates/object-storage-proto/src/template.rs:373-375 | Text of no section stands after all text so far, where the span says. |
| Builders.Builder.Run | crates/object-storage-proto/src/template.rs:281-315 | A layout run on the builder builds what the model says, call by call. |
| Builders.Builder.Finish | crates/object-storage-proto/src/template.rs:407-454 | Ends the layout, appends the steps to the text, and refuses with exactly the room required, or seals the table over those bytes. |
| Builders.StepsAppend | crates/object-storage-proto/src/template.rs:418-421 | Steps written one after another are the encoding of all of them. |
| Encoders.PrepareTemplate | crates/object-storage-proto/src/template.rs:407-454 | Preparing in a buffer gives what the layout alone decides: the step table and the room do not depend on the buffer, and it is done exactly if the image fits. |
| Encoders.EncodeTemplate | crates/object-storage-proto/src/template.rs:1183-1266 | For any table that loads and any bytes as template: the replay's request whole, its exact room if the buffer is shorter, or a refusal; the fields stay within the head. Of a template's own bytes, `TemplateSpans` says what the spans name. |
| Encoders.WalkTemplate | crates/object-storage-proto/src/template.rs:1008-1032 | The same of the table walk, whose spans `TemplateSpans.WalkedPartsAreNamed` places. |
| Encoders.UrlLen | crates/object-storage-proto/src/template.rs:1088-1099 | Counts the URL by walking its sections into no buffer. |
| Encoders.EncodePass.Take | crates/object-storage-proto/src/template.rs:1224-1244 | Takes the next step's run from the image, or fails past the table or the text. |
| Encoders.EncodePass.EndUntil | crates/object-storage-proto/src/template.rs:1249-1255 | Ends sections, each with its own step of text. |
| Encoders.EncodePass.Param | crates/object-storage-proto/src/template.rs:1296-1313 | Replays a parameter without looking at its hole's kind. |
| Encoders.EncodePass.MarkFields | crates/object-storage-proto/src/template.rs:1286-1293 | Finds the fields in the run of the next step, and fails if the table says another step. |
| Encoders.EncodePass.Finish | crates/object-storage-proto/src/template.rs:1259-1266 | Ends every section and gives the parts, or fails if any step failed or was left over. |
| Encoders.MeasureBody | crates/object-storage-proto/src/template.rs:727-733 | The body length: none, fixed, or filled. |
| Encoders.FixedBodyLength | crates/object-storage-proto/src/template.rs:736-746 | Sums the runs of a body without holes. |
| Encoders.FilledBodyLength | crates/object-storage-proto/src/template.rs:749-770 | Adds the length that the request states, or counts the body by a dry walk. |
| Encoders.BodyLenFits | crates/object-storage-proto/src/template.rs:727-770 | Whatever the table and the stated length are, a measured body length fits 64 bits. |
| Engines.WalkTable | crates/object-storage-proto/src/template.rs:1103-1155 | Walks the steps of a range of sections with one cursor, and gives the parts written or refuses, for any table that loads and any bytes. |
| Engines.WalkOne | crates/object-storage-proto/src/template.rs:1129-1148 | One step: its run, its hole, and the ends it carries. |
| Engines.WriteHole | crates/object-storage-proto/src/template.rs:928-1000 | Writes a hole's value as the rendering defines it, and says whether there was one. |
| Engines.UrlInto | crates/object-storage-proto/src/template.rs:944-961 | Repeats the URL, its path or its query from the bytes written, always in bounds. |
| Engines.MarkInto | crates/object-storage-proto/src/template.rs:962-982 | Writes a placeholder and records it as the rendering does; `TemplateParts.MarksArePlaces` says where that is. |
| Engines.ParamInto | crates/object-storage-proto/src/template.rs:987-998 | Writes an optional parameter whole, or nothing of it. |
| Engines.PartsKeepFieldsInHead | crates/object-storage-proto/src/template.rs:884-920 | Whatever the recorded ends are, as from bytes that are no template, the fields are within the head. |
| Engines.WriteState.End | crates/object-storage-proto/src/template.rs:872-878 | Records the position as the end of each section whose bit is set. |
| Tables.StoringReadsBack | crates/object-storage-proto/src/template.rs:543-591 | A stored table loads as itself exactly if `load` takes its values, and is refused otherwise. |
| Tables.Load | crates/object-storage-proto/src/template.rs:559-591 | Loading reads exactly the fields stored, at any place, and checks counts, extent and the fields' step. |
| Tables.LoadedTableFits | crates/object-storage-proto/src/template.rs:559-591 | A loaded table has at most 96 steps, those of its sections, and finds them in every template that is long enough. |
| Tables.Store | crates/object-storage-proto/src/template.rs:543-553 | Storing appends the fields in order. |
| Tables.StoredPlaces | crates/object-storage-proto/src/template.rs:543-553 | Where each stored value stands, byte by byte. |
| Tables.StepsReadBack | crates/object-storage-proto/src/template.rs:774-782 | Steps written to bytes are read back. |
| Tables.OneWordChangesFingerprint | crates/object-storage-proto/src/template.rs:459-471 | Any change confined to one aligned 8-byte word changes the fingerprint, at every length. |
| Tables.ZerosChangeFingerprint | crates/object-storage-proto/src/template.rs:459-471 | So do zeros that fill up the last word. |
| Tables.EmptyFingerprint | crates/object-storage-proto/src/template.rs:459-471 | The fingerprint of no bytes. |
| Tables.MixingIsInjective | crates/object-storage-proto/src/template.rs:459-471 | One mixing step is injective in the word and in the fingerprint so far, as the multiplier is odd. |
| Tables.CheckCatchesOneWord | crates/object-storage-proto/src/template.rs:707-712 | `check` refuses a template of which one aligned word was changed. |
| Layouts.HoleIdReadsBack | crates/object-storage-proto/src/template.rs:169-171 | A hole's number in a step reads back as the hole. |
| Requests.Writer.Push | crates/object-storage-proto/src/request.rs:80-88 | Appends to the text, writes it while it fits, and counts on past the buffer. |
| Requests.Writer.Repeat | crates/object-storage-proto/src/request.rs:109-116 | Appends the bytes of a span written before, wherever it is. |
| Requests.CopyShort | crates/object-storage-proto/src/request.rs:135-158 | Overlapping stores of fixed widths copy exactly the slice, at every length. |
| RequestFields.FieldsReadBack | crates/object-storage-proto/src/template.rs:1554-1569 | Printed header fields read back as themselves exactly if no line holds a CRLF and no name holds `: `. |
| RequestFields.FieldLines.Next | crates/object-storage-proto/src/template.rs:1559-1569 | Gives the next field and moves past its line. A line without a name is dropped, and a text without a line end stays. |
| Numbers.U64Decimal | crates/object-storage-proto/src/request.rs:225-244 | Filling a buffer backwards two digits at a time writes the shortest decimal text. |
| Numbers.ParsingUndoesWriting | crates/object-storage-proto/src/encoding.rs:230-245 | `parse_decimal` reads back every number that is written. |
| Numbers.ParseDecimalReads | crates/object-storage-proto/src/encoding.rs:230-245 | It reads exactly the texts of one or more digits whose value fits 64 bits, though the short path does no checked arithmetic. |
| Url.DecodeInPlace | crates/object-storage-proto/src/url.rs:244-284 | Decoding over its own buffer gives what a sequential decoder gives, never overtakes its reader, and reports a change exactly if the text differs. |
| Url.DecodingUndoesEncoding | crates/object-storage-proto/src/url.rs:196-286 | Decoding inverts percent-encoding for any set that escapes `%`, and `+` in form mode. |
| Url.DecodingUndoesBothEncodings | crates/object-storage-proto/src/url.rs:188-194 | So for both sets of the source, in both modes. |
| Url.FormDecodingReplacesPlusFirst | crates/object-storage-proto/src/url.rs:238-253 | Form decoding is replacing `+` by a space and then percent-decoding. |
| Url.PlusIsSpace | crates/object-storage-proto/src/url.rs:238-253 | Without escapes, form decoding turns each plus sign into a space and nothing else. |
| Url.EscapeIsRead | crates/object-storage-proto/src/url.rs:288-305 | An escape is read in capitals, small letters or both. |
| Url.PercentEncode.Next | crates/object-storage-proto/src/url.rs:214-224 | A chunk is exactly one escape or the longest plain run, and with what is left it makes the encoding of what was there. |
| Url.Unescaped | crates/object-storage-proto/src/url.rs:32-47 | The length of the longest prefix without a byte to escape. |
| Url.WriteEncoded | crates/object-storage-proto/src/url.rs:196-224 | The chunks written one after another are the byte-by-byte encoding. |
| Url.WriteKey | crates/object-storage-proto/src/url.rs:176-190 | A plain key written whole is its own encoding. |
| Url.EscapeSets | crates/object-storage-proto/src/url.rs:64-158 | The sets keep exactly the unreserved characters of section 2.3 of RFC 3986, and `/` in a key. |
| Url.EncodedBytes | crates/object-storage-proto/src/url.rs:196-224 | Every byte of an encoding is unescaped or part of an escape. |
| Url.EscapesAreUppercase | crates/object-storage-proto/src/url.rs:196-224 | Every percent sign of an encoding starts an escape of two digits in capitals. |
| Encodings.DecodingUndoesEncoding | crates/object-storage-proto/src/encoding.rs:57-123 | Base64 decoding inverts encoding for all byte strings, section 4 of RFC 4648. |
| Encodings.LenIsDecodedLen | crates/object-storage-proto/src/encoding.rs:79-91 | `base64_len` accepts exactly the texts that decode, and states their length. |
| Encodings.EncodingUndoesDecoding | crates/object-storage-proto/src/encoding.rs:96-123 | Encoding what a text decodes to gives the text exactly if its unused bits are zero. |
| Encodings.NotCanonicalIsRead | crates/object-storage-proto/src/encoding.rs:96-123 | `QR==` decodes though its unused bits are set. |
| Encodings.DecodeBase64 | crates/object-storage-proto/src/encoding.rs:96-123 | The loop writes the decoded bytes from its place on and nothing else, and refuses bad text or a short buffer. |
| Encodings.Base64Into | crates/object-storage-proto/src/encoding.rs:57-74 | The loop fills a buffer of exactly four characters per three bytes with the encoding. |
| KnownAnswers.Base64Vectors | crates/object-storage-proto/src/encoding.rs:57-74 | Test vectors of section 10 of RFC 4648. |
| Encodings.BuildSextets | crates/object-storage-proto/src/encoding.rs:13-21 | The table built from the alphabet is its inverse, and 64 for every other byte. |
| EncodedWords.ReadingUndoesWriting | crates/object-storage-proto/src/encoding.rs:129-207 | Written words with spaces between them read as their texts one after the other, if that is text. |
| EncodedWords.OneWordReadsBack | crates/object-storage-proto/src/encoding.rs:135-168 | One written word reads as its text. |
| EncodedWords.QWordReadsBack | crates/object-storage-proto/src/encoding.rs:171-207 | A word in the Q encoding, section 4.2 of RFC 2047, reads as its text, with the charset and the letter in either case. |
| EncodedWords.PrintableReads | crates/object-storage-proto/src/encoding.rs:187-207 | A Q text of printable characters that mark nothing reads as itself. |
| EncodedWords.WriteWord | crates/object-storage-proto/src/encoding.rs:135-142 | A word written in groups of three bytes is the base64 of the whole text. |
| KnownAnswers.WordExample | crates/object-storage-proto/src/encoding.rs:135-142 | A word is `=?UTF-8?B?`, the base64 and `?=`. |
| EncodedWords.ReadText | crates/object-storage-proto/src/encoding.rs:156-168 | Reads every word into one buffer as long as the value, which always has room, and checks the whole as text. |
| EncodedWords.ReadWord | crates/object-storage-proto/src/encoding.rs:171-183 | Reads a B or Q word of the UTF-8 charset after what the buffer holds. |
| EncodedWords.ReadQ | crates/object-storage-proto/src/encoding.rs:187-207 | The Q loop refines the character-by-character decoder. |
| EncodedWords.ReadWordIs | crates/object-storage-proto/src/encoding.rs:171-183 | A word is read only if it names UTF-8 in any case and one of the two encodings, whose text it is. |
| EncodedWords.QIsPrintable | crates/object-storage-proto/src/encoding.rs:187-207 | A Q word is of printable characters alone. |
| Checksums.DigestTextChecks | crates/object-storage-proto/src/checksum.rs:102-108 | The base64 of every digest, in either byte order, passes the check of its kind and decodes to the digest. |
| Checksums.DigestTextHolds | crates/object-storage-proto/src/checksum.rs:193-213 | The text has the length that is left for it and holds the digest byte by byte, of a CRC-64 for S3 alone from the last. |
| Checksums.CheckTellsLengths | crates/object-storage-proto/src/checksum.rs:102-108 | It passes the check of another kind exactly if that has as many bytes. |
| Checksums.ShapeIsOfEncoded | crates/object-storage-proto/src/checksum.rs:113-120 | The shape counts the alphabet's characters and the padding of the encoding. |
| Checksums.Crc64Text | crates/object-storage-proto/src/checksum.rs:155-203 | Both services read one CRC-64: the text decodes to its little-endian or its big-endian bytes. |
| ByteOrders.LittleEndianAt | crates/object-storage-proto/src/checksum.rs:155-157 | Which byte of a number stands where in little-endian order. |
| ByteOrders.BigEndianAt | crates/object-storage-proto/src/checksum.rs:161-169 | And in big-endian order. |
| Checksums.Base64For | crates/object-storage-proto/src/checksum.rs:193-212 | A CRC-64 is reversed for S3 and no other digest is. |
| Checksums.ReverseInPlace | crates/object-storage-proto/src/checksum.rs:198-202 | Swapping from both ends reverses the first bytes and keeps the rest. |
| Multiparts.SplitIsPrinted | crates/object-storage-proto/src/multipart.rs:114-228 | A body splits without a fault into given parts exactly if it is what printing them writes, with the final CRLF or without, each part has checked field lines, and no part holds CRLF, `--` and the boundary, section 5.1.1 of RFC 2046. |
| Multiparts.FaultyBodyGives | crates/object-storage-proto/src/multipart.rs:90-161 | Before its fault, a body gives exactly the parts that stand at its start, each followed by a delimiter that opens another. |
| Multiparts.NoFalseMatch | crates/object-storage-proto/src/multipart.rs:165-179 | A delimiter is found right after a part exactly if the part holds none: no match straddles into it. |
| KnownAnswers.BodyExample | crates/object-storage-proto/src/multipart.rs:90-161 | The text of a body of one part. |
| Multiparts.FindDelimiter | crates/object-storage-proto/src/multipart.rs:165-179 | The search by line starts finds the first delimiter, or none. |
| Multiparts.FindIsFirst | crates/object-storage-proto/src/multipart.rs:165-179 | What the search finds is the first place of the needle, and it finds one if there is one. |
| Multiparts.PartReadsBack | crates/object-storage-proto/src/multipart.rs:183-197 | A part is accepted exactly if it is checked field lines, the empty line and the content. |
| Multiparts.ReadPart | crates/object-storage-proto/src/multipart.rs:183-197 | The loop cuts the field section and the content where the model does. |
| Multiparts.MultipartParts.Next | crates/object-storage-proto/src/multipart.rs:117-127 | Gives the next part or the fault that ends the parts, and its whole new state. |
| Multiparts.MultipartParts.Open | crates/object-storage-proto/src/multipart.rs:132-141 | Takes the first delimiter, or leaves the body. |
| Multiparts.MultipartParts.NextRaw | crates/object-storage-proto/src/multipart.rs:144-161 | Takes one part and the delimiter after it. |
| Multiparts.ReadAll | crates/object-storage-proto/src/multipart.rs:90-127 | Iterating to the end gives exactly the parts of the split, and its fault. |
| Multiparts.SplitHasParts | crates/object-storage-proto/src/multipart.rs:114-127 | A split without a fault has a part. |
| Multiparts.BoundaryReadsBack | crates/object-storage-proto/src/multipart.rs:31-72 | A valid boundary written unquoted reads back exactly if it is a token, and always in quotes. |
| Multiparts.MixedContentTypeIs | crates/object-storage-proto/src/multipart.rs:199-208 | The content type as it is written. |
| Multiparts.BatchBoundaryReadsBack | crates/object-storage-proto/src/azure/batch.rs:42-42 | The boundary of batches is valid and reads back. |
| Multiparts.SpacedBoundaryIsNotReadBack | crates/object-storage-proto/src/multipart.rs:31-72 | `a b` is a valid boundary that is not read back unquoted. |
| Multiparts.ReadBoundary | crates/object-storage-proto/src/multipart.rs:31-64 | The loop over parameters reads the one valid boundary, and faults on a second one or on anything that is no parameter. |
| Multiparts.BoundaryOfIs | crates/object-storage-proto/src/multipart.rs:31-64 | A content type gives a boundary exactly if it is `multipart/mixed` in any case, all else are parameters, and one alone names a boundary, a valid one. |
| Multiparts.ParameterIs | crates/object-storage-proto/src/multipart.rs:38-58 | A parameter is exactly a token, an equals sign and a value, with blanks around them. |
| Multiparts.ParameterValueIs | crates/object-storage-proto/src/multipart.rs:46-58 | A value is exactly a quoted text without quotes and escapes, or a token. |
| Multiparts.BoundaryLengths | crates/object-storage-proto/src/multipart.rs:66-72 | A boundary has 1 to 70 characters. |
| HttpMessages.AcceptedIsPrinted | crates/object-storage-proto/src/http_message.rs:40-65 | A text is accepted as a message exactly if it is the print of its status line, checked lines and content, with the framing right: nothing of it is lost. |
| HttpMessages.Parse | crates/object-storage-proto/src/http_message.rs:40-65 | The reader accepts those messages and gives their status, field section and content. |
| HttpMessages.ReadFields | crates/object-storage-proto/src/http_message.rs:44-57 | The loop ends the field section where the head ends. |
| HttpMessages.SecondReaderAgrees | crates/object-storage-proto/src/http_message.rs:150-155 | Splitting a checked section on LF gives exactly the fields of its lines, and drops none. |
| HttpMessages.CheckFraming | crates/object-storage-proto/src/http_message.rs:80-98 | No `Transfer-Encoding`; at most one `Content-Length`, which states the content's length; one if there is content. |
| KnownAnswers.FramingExamples | crates/object-storage-proto/src/http_message.rs:80-98 | A message with `Transfer-Encoding` is refused, and one with a `Content-Length` exactly if it is not the content's. |
| HttpMessages.StatusLineIs | crates/object-storage-proto/src/http_message.rs:114-129 | A status code is read exactly from `HTTP/1.1`, a code from 100 to 599 in digits, a space and a reason of text. |
| HttpMessages.FieldLineIs | crates/object-storage-proto/src/http_message.rs:133-147 | A field is read exactly from a token, a colon right after it, and text, of which the value is the middle. |
| HttpMessages.NextLineIs | crates/object-storage-proto/src/http_message.rs:103-111 | The first line is read exactly from a line without CR or LF, CRLF and the rest. |
| HttpMessages.TrimWhitespace | crates/object-storage-proto/src/http_message.rs:169-177 | Removes blanks from one end and then from the other. |
| HttpMessages.TrimmedIsMiddle | crates/object-storage-proto/src/http_message.rs:169-177 | What is removed is blank, and what is left neither starts nor ends with a blank. |
| ContentRanges.FastPathAgrees | crates/object-storage-proto/src/head.rs:340-376 | Wherever the digits-only path reads a value, the general reader reads the same. |
| ContentRanges.ParseContentRange | crates/object-storage-proto/src/head.rs:340-364 | With the fast path first, every value is read as the general reader alone reads it. |
| ContentRanges.LeadingDecimal | crates/object-storage-proto/src/head.rs:382-394 | The wrapping loop gives the value of the 1 to 19 digits that a text starts with, and refuses a 20th. |
| ContentRanges.LeadingIs | crates/object-storage-proto/src/head.rs:382-394 | The leading decimal is refused exactly without a digit or with twenty. |
| ContentRanges.RangeIsBounded | crates/object-storage-proto/src/head.rs:338-364 | A satisfied range is in order, within its total, and its exclusive end fits 64 bits. |
| ContentRanges.ContentRangeIs | crates/object-storage-proto/src/head.rs:340-376 | A value is read exactly if it is `bytes`, two numbers in order and within the total or `*`, a slash, and a total or `*`, with spaces around each. |
| KnownAnswers.ContentRangeExamples | crates/object-storage-proto/src/head.rs:340-376 | The values that section 14.4 of RFC 9110 prints are read. |
| ContentRanges.WholeAnswer | crates/object-storage-proto/src/head.rs:251-275 | A status of 200 is refused exactly if the length or the date cannot be read; a read of content is given the whole object, of the stated length, and a read of metadata its size. |
| ContentRanges.AnsweredWholeIsAccepted | crates/object-storage-proto/src/head.rs:260-275 | A read without a range answered with an object's length is accepted with the whole object. |
| ContentRanges.UnreadableIsRefused | crates/object-storage-proto/src/head.rs:252-287 | A partial answer whose values cannot be read is at fault in its head. |
| ContentRanges.WholeHasNoWindow | crates/object-storage-proto/src/head.rs:297-308 | A partial answer is none to a read of the whole object. |
| ContentRanges.WindowIsRequested | crates/object-storage-proto/src/head.rs:277-325 | With a known total, an answer is accepted exactly if its window is the requested range cut at the object's end and a stated length is its length; the fault is the head's if the length is wrong and the range's otherwise. |
| ContentRanges.WindowWithoutSize | crates/object-storage-proto/src/head.rs:292-324 | Without a total, an answer is accepted exactly if its start is the one asked for and a stated length fits; the window is the one that the answer states, of an unknown size. |
| ContentRanges.WindowWithoutSizeIsRequested | crates/object-storage-proto/src/head.rs:292-324 | Such a window is what was asked for, of every object that the answer can be of, if and only if the range names its end and the answer ends there. |
| ContentRanges.LongerWindowIsAccepted | crates/object-storage-proto/src/head.rs:292-324 | Ten bytes are asked for and a hundred are accepted. |
| ContentRanges.AnsweredRangeIsAccepted | crates/object-storage-proto/src/head.rs:249-325 | A range request answered as RFC 9110 says is accepted with the window that the range covers. |
| ContentRanges.RangeTextAsks | crates/object-storage-proto/src/request.rs:260-278 | The `Range` text asks a server for exactly the bytes that the range covers, section 14.1.2 of RFC 9110. |
| KnownAnswers.RangeExamples | crates/object-storage-proto/src/request.rs:260-278 | The texts of the ranges that section 14.1.2 of RFC 9110 prints. |
| ContentRanges.WriteRange | crates/object-storage-proto/src/request.rs:260-278 | Writes that text for every validated range. |
| ResponseHeads.IsIgnoresCase | crates/object-storage-proto/src/head.rs:172-221 | For every known name of 4 to 24 bytes without an uppercase letter, the overlapping masked word compares are equality without case. |
| ResponseHeads.UppercaseIsNotMatched | crates/object-storage-proto/src/head.rs:189-200 | A known name with an uppercase letter would not match its own lower case. |
| ResponseHeads.IsComparesBytes | crates/object-storage-proto/src/head.rs:205-220 | The two or three words cover every byte of the name. |
| ResponseHeads.KeptWord | crates/object-storage-proto/src/head.rs:189-200 | The loop builds the little-endian word of the bytes and that of their case bits. |
| ResponseHeads.NewKeptHeader | crates/object-storage-proto/src/head.rs:173-187 | Builds the three words of a known name. |
| ResponseHeads.SlotsAreNamed | crates/object-storage-proto/src/head.rs:126-157 | The field that a name fills is the one of the known name that it equals in any case. |
| KeptNames.FieldsAreNamed | crates/object-storage-proto/src/head.rs:126-157 | A header fills a field exactly if its name, in any case, is one of the names that the services send for it. |
| ResponseHeads.FromHeaders | crates/object-storage-proto/src/head.rs:102-120 | Each field holds the value of the first header, over the whole sequence, whose name fills it, and nothing else is held. |
| ResponseHeads.ResponseHead.Insert | crates/object-storage-proto/src/head.rs:114-120 | A value is kept only where none is. |
| Calendars.CivilIsCalendar | crates/object-storage-proto/src/time.rs:32-52 | The conversion formula gives the date that counting day by day from 1970-01-01 gives, on every day. |
| Calendars.CalendarCounts | crates/object-storage-proto/src/time.rs:255-266 | The inverse formula counts the days to each date of the calendar. |
| Calendars.CivilUndoesDays | crates/object-storage-proto/src/time.rs:36-52 | The two formulas are inverse on every date, before year 0 too. |
| Calendars.NextDayIsOneMore | crates/object-storage-proto/src/time.rs:258-266 | The next date of the calendar is one day more, over months, years, leap years and eras. |
| Calendars.DateOfDays | crates/object-storage-proto/src/time.rs:258-266 | A date from 1970 on is the calendar's date of its own count. |
| Calendars.DaysFromEpoch | crates/object-storage-proto/src/time.rs:17-31 | Counts are below zero exactly before 1970, and within the clamp exactly to the year 9999. |
| Calendars.WeekdayIsRemainder | crates/object-storage-proto/src/time.rs:55-56 | Counting weekdays from a Thursday is the remainder that picks the name. |
| Times.FromUnix | crates/object-storage-proto/src/time.rs:24-75 | Fills both texts of an instant as the calendar, the weekday count and the time of day say, clamped to the end of 9999. |
| KnownAnswers.DateExample | crates/object-storage-proto/src/time.rs:24-75 | Both texts of the instant that section 5.6.7 of RFC 9110 prints. |
| KnownAnswers.MonthsAndWeekdays | crates/object-storage-proto/src/time.rs:13-16 | The printed dates of a day in each month and on each weekday. |
| Times.WriteFixedDigits | crates/object-storage-proto/src/time.rs:141-146 | Fills a field backwards with digits and leading zeros, and nothing beside it. |
| DateReaders.HttpDateReadsBack | crates/object-storage-proto/src/time.rs:156-188 | The date that is written reads back as its clamped instant in milliseconds. |
| DateReaders.ReadThenWritten | crates/object-storage-proto/src/time.rs:148-188 | A text that is read is the text of its instant exactly if its day exists, with its weekday, and there is no leap second. |
| DateReaders.ReadsDaysThatDoNotExist | crates/object-storage-proto/src/time.rs:148-188 | The 31st of February 2013 is read as the 3rd of March. |
| DateReaders.FieldsAreWritten | crates/object-storage-proto/src/time.rs:159-183 | Fields are read from a text exactly if the text is what they write. |
| DateReaders.SecondsAreBounded | crates/object-storage-proto/src/time.rs:184-187 | No date that is read overflows the arithmetic. |
| DateReaders.IsoDateReads | crates/object-storage-proto/src/time.rs:198-244 | An ISO 8601 date with any fraction reads as its instant, the fraction cut to the millisecond. |
| DateReaders.IsoReadThenWritten | crates/object-storage-proto/src/time.rs:190-244 | A text that is read is the text of its instant, with its own fraction, if and only if its day exists and it has no leap second. |
| DateReaders.IsoFieldsAreWritten | crates/object-storage-proto/src/time.rs:200-235 | Fields and a fraction are read from a text exactly if the text is what they write. |
| DateReaders.IsoReadsWhatDoesNotExist | crates/object-storage-proto/src/time.rs:190-244 | The 31st of February is read as the 3rd of March, and a leap second as the next minute. |
| KnownAnswers.IsoExample | crates/object-storage-proto/src/time.rs:190-204 | The date that the documentation shows reads as its instant. |
| DateReaders.MillisAreTheFraction | crates/object-storage-proto/src/time.rs:216-228 | Padding or cutting the digits to three gives the fraction's whole milliseconds. |
| DateReaders.FractionsAre | crates/object-storage-proto/src/time.rs:214-228 | A fraction is exactly nothing, or a point and digits. |
| DateReaders.TextOrderIsTimeOrder | crates/object-storage-proto/src/time.rs:63-69 | The byte order of the basic dates is the order of their clamped instants, both ways. |
| DateReaders.ParsedIsValue | crates/object-storage-proto/src/time.rs:246-253 | The fold reads exactly the texts of digits, as their value. |
| Crc.CheckInPieces | crates/object-storage-crypto/src/crc64.rs:46-70 | However a message is cut into updates, the table-driven check is the bit-at-a-time check of the whole. |
| Crc.ChecksAreTheCatalogues | crates/object-storage-crypto/src/crc32.rs:36-97 | CRC-64/NVME, CRC-32 and CRC-32C are the catalogue's left-shifting checks with the polynomials as printed. |
| Crc.CheckIsTheCatalogues | crates/object-storage-crypto/src/crc64.rs:14-17 | So for every polynomial and width: shifting right with a reflected polynomial is shifting left, reflected. |
| Crc.Polynomial64IsReflection | crates/object-storage-crypto/src/crc64.rs:14-17 | The constant is the 64-bit reflection of the polynomial that the catalogue prints. |
| Crc.BuildTable | crates/object-storage-crypto/src/crc32.rs:9-27 | Each entry is its index shifted eight times. |
| Crc.ShiftIsLinear | crates/object-storage-crypto/src/crc64.rs:27-31 | A shift step is linear over exclusive or. |
| Crc.OneByte | crates/object-storage-crypto/src/crc32.rs:29-34 | One lookup is eight bits of the definition, for every register and byte. |
| Crc.Advance | crates/object-storage-crypto/src/crc32.rs:29-34 | The byte loop feeds the message to the register as the definition does. |
| Crc.Checksum.Update | crates/object-storage-crypto/src/crc64.rs:61-67 | An update appends to the message checked so far. |
| Crc.Checksum.Finish | crates/object-storage-crypto/src/crc64.rs:69-71 | Finishing gives the check of all pieces. |
| Crc.RegisterKeepsWidth | crates/object-storage-crypto/src/crc64.rs:61-67 | A register never leaves its width. |
| Sha256.Hasher.Add | crates/object-storage-crypto/src/sha256_rustcrypto.rs:39-58 | An addition of any length, to a block filled to any point, keeps the state of the message so far. |
| Sha256.Hasher.Digest | crates/object-storage-crypto/src/sha256_rustcrypto.rs:62-77 | The digest is the compression folded over the message padded by section 5.1.1 of FIPS 180-4, for every message however it was cut. |
| Sha256.Compress | crates/object-storage-crypto/src/sha256_rustcrypto.rs:52-55 | Whole blocks are compressed in order. |
| Sha256.ZerosAreFewest | crates/object-storage-crypto/src/sha256_rustcrypto.rs:60-71 | The padding has the fewest zeros that leave room for the length. |
| Sha256.InitialIsOfRoots | crates/object-storage-crypto/src/sha256_rustcrypto.rs:22-24 | Each initial word is the first 32 bits of the fraction of its prime's square root, section 5.3.3 of FIPS 180-4. |
| Sha256.StateByteAt | crates/object-storage-crypto/src/sha256_rustcrypto.rs:72-77 | The digest's bytes are those of the state's words in turn, the highest first. |
| Sha256.OneBlock | crates/object-storage-crypto/src/sha256_rustcrypto.rs:62-71 | A block filled below 56 takes its padding itself. |
| Sha256.TwoBlocks | crates/object-storage-crypto/src/sha256_rustcrypto.rs:66-71 | One filled further takes another block. |
| Sha256.SameLength | crates/object-storage-crypto/src/sha256_rustcrypto.rs:63-70 | The length that 64 bits keep, times eight, writes the padding's own eight bytes. |
| Sigv4.HmacKey.constructor | crates/object-storage-crypto/src/sigv4.rs:48-63 | Absorbing a key leaves the hashes of its inner and outer padding, the outer made from the inner in place. |
| Sigv4.HmacKey.Mac | crates/object-storage-crypto/src/sigv4.rs:66-72 | The code from copies of both hashes is HMAC, section 2 of RFC 2104, and the key can be used again. |
| Sigv4.PadsTurn | crates/object-storage-crypto/src/sigv4.rs:55-58 | Turning the inner padding by one more constant is the outer padding. |
| Sigv4.KeysOfOneBlock | crates/object-storage-crypto/src/sigv4.rs:48-54 | A key of up to one block stands as it is before zeros, and only a longer one is hashed. |
| Sigv4.NoKey | crates/object-storage-crypto/src/sigv4.rs:48-72 | Without a key, the paddings are the constants of RFC 2104. |
| Sigv4.SignedTextReads | crates/object-storage-crypto/src/sigv4.rs:131-143 | What is signed ends with digits and small letters that read, high half first, as the canonical request's hash. |
| Sigv4.HexReadsBack | crates/object-storage-crypto/src/sigv4.rs:131-143 | The hexadecimal of a hash, read as two small digits a byte, is the hash. |
| Sigv4.Stamp.Sign | crates/object-storage-crypto/src/sigv4.rs:131-143 | A stamp signs the HMAC of its prefix and the hexadecimal of the hash, which `Sigv4.HexReadsBack` reads. |
| Sigv4.SignBatch | crates/object-storage-crypto/src/sigv4.rs:202-209 | Each code of a batch is the signature of its own request; codes past the batch stay. |
| Sigv4.SignOne | crates/object-storage-crypto/src/sigv4.rs:174-182 | Signing one request gives the same signature. |

## Left out

- The layouts of the Azure and S3 operations, their values and the XML of listings: the theorems
  quantify over every well-formed layout and every filler instead.
- Well-formedness of layouts is assumed where a theorem says `WellFormed`: sections in ascending
  order, parameter holes only through parameters, nothing but text and its own hole in the body, the
  body's length not before the head, the fields marked at most once. The C interface and the
  layouts' own checks are not part of this model.
- TemplateUrlLimits.LongUrlsAreRefusedExactly: speaks of values whose room is below 2^64, as that of any
  values in memory is; `HoleValues.UrlBound` and `TemplateUrls.LongUrlsAreRefused` keep the sum that
  wraps past it.
- `fixed_query`, which only the operations' layouts use.
- `Table::params` and the saturating counts past 255 parameters or steps of a section are modelled;
  a layout that reaches them is refused or panics before they matter.
- The compression function of SHA-256 is a parameter. MD5, SHA-1, the second SHA-256 adapter, the
  derivation of a day's key, and the wiping of keys are not modelled. `Sigv4.Stamp` takes the start of
  the string to sign as bytes.
- UTF-8 views: text is bytes, and where the source checks UTF-8 the model takes the check as a
  predicate (`EncodedWords.ReadText`) or a flag (`ContentRanges.GetHead`).
- `looks_encoded`, `write_xml_text` and the storing of timestamps.
- `ContentRanges.AcceptGetSuccess`: the metadata copied from the head to the outcome is left out; the
  window, the size and the faults are kept.
- `HttpMessages.Response`: building a head from its fields is `ResponseHeads.FromHeaders` on the pairs.
- `ResponseHeads.ResponseHead`: its fields are one map from field to value instead of a struct of
  optional values.
- `Sha256.Hasher.Copy` stands for the copies that Rust makes of a `Copy` value.
- `Crc.Feed` works on unbounded numbers with an exclusive or defined bit by bit;
  `Crc.RegisterKeepsWidth` shows that nothing is lost by that.
