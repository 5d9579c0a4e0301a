# EML to Markdown: a verified model of the parser

This project models `lib/eml-parser.ts`, the converter that turns an `.eml`
message (RFC 5322 headers, MIME bodies) into a Markdown document. It covers
the whole pipeline of `parseEmlToMarkdown`:

- input validation;
- the header loop, including unfolding of continuation lines;
- RFC 2047 encoded-word decoding of header values;
- splitting a message at its first blank line;
- multipart splitting on the boundary delimiter;
- choice of the part to show (HTML wins over plain text);
- quoted-printable and base64 body decoding, with charset conversion;
- the stated passes of the HTML transcoder: tables, tag stripping, entity decoding and blank-line clean-up;
- layout of the final document.

Each module mirrors one part of the source:

| module | file | source functions |
|---|---|---|
| `Wrappers` | `wrappers.dfy` | `Option` and `Result`; `Err` stands for a thrown exception |
| `Text` | `text.dfy` | the JavaScript string operations used: the `\s`/`trim` whitespace set, `trim`, ASCII `toLowerCase`, `indexOf`, `split`, `join`, global literal `replace` |
| `Collaborators` | `collaborators.dfy` | the code the parser calls but does not contain, as fields of an `Env` value |
| `TransferEncoding` | `transfer_encoding.dfy` | `decodeQuotedPrintable`, `decodeBase64` |
| `HeaderDecoder` | `header_decoder.dfy` | `decodeHeaderValue` |
| `BodyDecoder` | `body_decoder.dfy` | the `charset=`/`boundary=` parameter regex, `detectAndDecodeText` |
| `HtmlMarkdown` | `html_markdown.dfy` | `htmlToMarkdown` |
| `HeaderParser` | `header_parser.dfy` | `parseMimeHeaders`, and the header fold it shares with `parseEmlManually` |
| `Multipart` | `multipart.dfy` | `parseMimePart`, `parseMultipartContent`, `extractBestContent` |
| `EmlParser` | `eml_parser.dfy` | `parseEmlManually`, `createMarkdownFromEmailData`, `parseEmlToMarkdown` |

The `Env` collaborators are:

- iconv-lite's `decode` and `encodingExists`;
- Node's base64 `Buffer` reader;
- two groups of regular-expression passes of the transcoder that are not modelled.

Every property holds for every choice of them.

The source's loops are methods, each proved equal to a specification function:

- the quoted-printable byte loop;
- the `parseMimeHeaders` loop;
- the header loop with its `break` and `continue`;
- the header-decoding loop;
- the section loop of `parseMultipartContent`;
- the row `forEach` of the table conversion;
- the `+=` building of the document.

The lemmas state what those functions promise.

Three behaviours of the code worth knowing, which the model follows:

- A `B` encoded-word whose charset conversion fails is replaced by its bare base64 payload, not left as the whole token: `decodeBase64` catches the failure itself and returns its input (lib/eml-parser.ts:52-59, 71-73).
- A `Q` encoded-word that fails is left as the whole token.
- A quoted-printable body whose charset conversion fails is not caught: `decodeQuotedPrintable` has no `try`. The failure propagates to `parseEmlToMarkdown`, which reports it with the file name. The model's `Err` results follow that path.

## Model

| member | source | states |
|---|---|---|
| TransferEncoding.StripSoftBreaks | lib/eml-parser.ts:27 | removing soft line breaks never lengthens the text and leaves text without line feeds unchanged |
| TransferEncoding.StripSoftBreaksPlain | lib/eml-parser.ts:27 | text before the first `=` is copied unchanged |
| TransferEncoding.SoftBreakLF | lib/eml-parser.ts:27 | a soft line break `=\n` is removed and the text on both sides of it kept |
| TransferEncoding.SoftBreakCRLF | lib/eml-parser.ts:27 | a soft line break `=\r\n` is removed and the text on both sides of it kept |
| TransferEncoding.QuotedPrintableBytes | lib/eml-parser.ts:27-46 | the `while` loop pushes exactly the bytes of the soft-break-free text: `=` and two hex digits give one byte, any other character its low 8 bits |
| TransferEncoding.DecodeQuotedPrintable | lib/eml-parser.ts:26-50 | the converter's result for the decoded bytes, its failure not caught; text without `=` hands over the low 8 bits of each character |
| TransferEncoding.DecodeQuotedPrintableEncoded | lib/eml-parser.ts:26-50 | the quoted-printable encoding of any byte string hands exactly those bytes to the converter |
| TransferEncoding.QpBytesLength | lib/eml-parser.ts:32-46 | the decoder never produces more bytes than the text has characters |
| TransferEncoding.QpBytesWithoutEscapes | lib/eml-parser.ts:42-45 | text without `=` decodes character for byte, each byte the low 8 bits of its character |
| TransferEncoding.QpRoundTrip | lib/eml-parser.ts:26-46 | decoding the quoted-printable encoding of any byte string gives that byte string back |
| TransferEncoding.QpBytesExample | lib/eml-parser.ts:32-46 | `Caf=C3=A9` decodes to the bytes 67, 97, 102, 0xC3, 0xA9 (UTF-8 `Café`) |
| TransferEncoding.DecodeBase64 | lib/eml-parser.ts:52-59 | the converted text when the charset conversion succeeds, the encoded input itself when it throws |
| HeaderDecoder.EncodedWordAt | lib/eml-parser.ts:64 | a recognised encoded-word has a non-empty charset without `?`, a Q/q/B/b letter and text without `?`, and its token is exactly the start of the text |
| HeaderDecoder.EncodedWordAtToken | lib/eml-parser.ts:64 | every well-formed token is recognised as itself, whatever follows it |
| HeaderDecoder.DecodeWord | lib/eml-parser.ts:65-79 | a Q word has `_` turned into spaces and is quoted-printable decoded, or stays the whole token when conversion throws; a B word is base64 decoded, or becomes its bare payload |
| HeaderDecoder.DecodeHeaderValue | lib/eml-parser.ts:61-81 | a value in which no `=` is followed by `?` is returned unchanged |
| HeaderDecoder.DecodeHeaderValuePlainPrefix | lib/eml-parser.ts:63-80 | text in which no encoded-word starts is copied unchanged ahead of the decoding of the rest |
| HeaderDecoder.PlainWithoutOpener | lib/eml-parser.ts:64 | text in which every `=` is followed by something other than `?` starts no encoded-word |
| HeaderDecoder.PlainEqualsBeforeToken | lib/eml-parser.ts:63-80 | in `50% = deal ` followed by a token, the `=` is kept and the token decoded |
| HeaderDecoder.DecodeHeaderValueToken | lib/eml-parser.ts:63-80 | a token is replaced by its own decoding and the scan resumes right after it, independently of how the token fared |
| HeaderDecoder.DecodeHeaderValueSegment | lib/eml-parser.ts:63-80 | plain text followed by a token: the text is copied, the token decoded, the rest decoded on its own |
| HeaderDecoder.DecodeHeaderValueTwoTokens | lib/eml-parser.ts:63-80 | two tokens separated by plain text decode independently: a failing token does not disturb its neighbours |
| BodyDecoder.ParamValueFrom | lib/eml-parser.ts:90 | a captured parameter value is non-empty and made only of characters outside `;"'` and whitespace |
| BodyDecoder.ParamValue | lib/eml-parser.ts:90 | the capture of `charset=` here and of `boundary=` at line 355: a found value is a non-empty run of characters outside `;"'` and whitespace, and the name matches (ignoring case) somewhere in the text; ParamValueReadsWritten reads a written parameter back |
| BodyDecoder.ParamValueReadsWritten | lib/eml-parser.ts:90 | a parameter written as `name=value`, quoted or not, and followed by a delimiter reads back as that value when nothing earlier can start the name |
| BodyDecoder.Charset | lib/eml-parser.ts:90-91 | the charset is the lower-cased `charset=` parameter value, and `utf-8` without a Content-Type or without that parameter |
| BodyDecoder.DetectAndDecodeText | lib/eml-parser.ts:83-109 | empty text gives empty text; quoted-printable goes to the quoted-printable decoder with the charset, and its failure is the only failure; base64 goes through `decodeBase64`; otherwise a supported non-`utf-8` charset re-decodes the low bytes, falling back to the text, and anything else returns the text unchanged |
| HtmlMarkdown.FindFrom | lib/eml-parser.ts:136 | the first position at or after the start where a case-insensitive tag pattern matches, and no earlier one |
| HtmlMarkdown.ElementAt | lib/eml-parser.ts:136-142 | an element match is the opening pattern, an opening tag ending in `>`, content, and a closing pattern; no match where the opening pattern does not match |
| HtmlMarkdown.ElementAtFirst | lib/eml-parser.ts:136-142 | the match is the lazy one: the opening tag ends at the first `>` after the opening pattern, and no closing pattern starts inside the content |
| HtmlMarkdown.StripTags | lib/eml-parser.ts:212 | no `<` … `>` is left, every character comes from the input, and text without `<` is unchanged |
| HtmlMarkdown.StripTagsSkip | lib/eml-parser.ts:212 | text before the first `<` is kept |
| HtmlMarkdown.StripTagsTag | lib/eml-parser.ts:212 | a tag `<…>` is removed and the text on both sides of it kept |
| HtmlMarkdown.StripTagsKeepsPlainText | lib/eml-parser.ts:212 | text with no tag left is a fixed point of tag stripping |
| HtmlMarkdown.StripTagsIdempotent | lib/eml-parser.ts:212 | stripping tags twice is stripping them once |
| HtmlMarkdown.CellText | lib/eml-parser.ts:143-148 | a cell's text is trimmed and fits on one line |
| HtmlMarkdown.RowLines | lib/eml-parser.ts:150-157 | a row contributes nothing exactly when it has no cells; otherwise lines starting with a bar and ending with a line feed |
| HtmlMarkdown.BuildTable | lib/eml-parser.ts:139-160 | the row `forEach` builds the table body between two blank-line pairs |
| HtmlMarkdown.TableStep | lib/eml-parser.ts:141-157 | each further row appends its own lines, the separator only for the row at index 0 |
| HtmlMarkdown.TableBodyShape | lib/eml-parser.ts:141-158 | the separator follows the first row only; every later row adds its own line and nothing else |
| HtmlMarkdown.TableLinesExample | lib/eml-parser.ts:150-157 | a header row `A`, `B` and a row `1`, `2` give the three table lines of `A`/`B`, the `---` separator and `1`/`2` |
| HtmlMarkdown.ConvertTables | lib/eml-parser.ts:136 | text without `<` passes through the table conversion unchanged |
| HtmlMarkdown.ConvertTablesSkip | lib/eml-parser.ts:136 | text before the first `<` is kept by the table conversion |
| HtmlMarkdown.ConvertTablesElement | lib/eml-parser.ts:136-161 | a `<table …>` element whose content holds no `</table>` is replaced by the Markdown of its content; the text before it is kept and the text after it converted in turn |
| HtmlMarkdown.MatchAllEnclosed | lib/eml-parser.ts:137-142 | every match of a `match(/…/gi)` starts with the opening pattern and ends with the closing one |
| HtmlMarkdown.TableRows | lib/eml-parser.ts:137-138 | every row of a table starts with `<tr` and ends with `</tr>` |
| HtmlMarkdown.TableRowsWritten | lib/eml-parser.ts:137-138 | the rows of written `<tr>…</tr>` rows are exactly those rows, in order |
| HtmlMarkdown.RowCells | lib/eml-parser.ts:142-148 | every cell text of a row is trimmed and holds no line feed |
| HtmlMarkdown.RowCellsWritten | lib/eml-parser.ts:142-148 | the cells of a written row are the texts of what was written in its `<td>` cells, one per cell, in order |
| HtmlMarkdown.ConvertTablesWritten | lib/eml-parser.ts:136-161 | a `<table>` of written rows becomes the Markdown table of their cell texts |
| HtmlMarkdown.HtmlTableExample | lib/eml-parser.ts:136-161 | `<table>` with the rows `A`,`B` and `1`,`2` becomes the header line, the `---` separator and the data line, set off by blank lines |
| HtmlMarkdown.DecodeEntitiesEscape | lib/eml-parser.ts:215-220 | the six entity passes, in their order, undo HTML escaping of `&<>"'` for every text |
| HtmlMarkdown.DecodeEntities | lib/eml-parser.ts:215-220 | the six passes leave text without `&` unchanged; DecodeEntitiesEscape, StagePass and AmpersandLast state what they decode |
| HtmlMarkdown.StagePass | lib/eml-parser.ts:215-220 | each entity pass turns back exactly the characters it is for and leaves later entities alone |
| HtmlMarkdown.AmpersandLast | lib/eml-parser.ts:215-220 | `&amp;lt;` decodes to `&lt;`, not `<`, because `&amp;` is decoded last |
| HtmlMarkdown.CollapseBound | lib/eml-parser.ts:223 | after the blank-line clean-up no whitespace run holds more than two line feeds |
| HtmlMarkdown.CollapseBlankLines | lib/eml-parser.ts:223 | text without a line feed is unchanged; CollapseBound and CollapseKeepsTidyText state the bound it establishes and the text it keeps |
| HtmlMarkdown.CollapseKeepsTidyText | lib/eml-parser.ts:223 | text with at most one blank line anywhere is left unchanged by the clean-up |
| HtmlMarkdown.TrimKeepsBound | lib/eml-parser.ts:224-225 | trimming keeps the at-most-one-blank-line property |
| HtmlMarkdown.HtmlToMarkdown | lib/eml-parser.ts:111-227 | empty input gives empty output; every output is trimmed and has at most one blank line anywhere |
| HeaderParser.HeaderField | lib/eml-parser.ts:238-242 | a line with its first colon past the start gives a trimmed, lower-case name and a trimmed value; a line without a colon gives nothing |
| HeaderParser.HeaderFieldReadsWritten | lib/eml-parser.ts:238-242 | `Name: value` reads back as the lower-cased trimmed name and the trimmed value |
| HeaderParser.Step | lib/eml-parser.ts:234-243 | one line keeps the current header defined, never removes a header, changes only the current header, ignores a line that neither continues nor has a colon, and a header line sets its own value |
| HeaderParser.Fold | lib/eml-parser.ts:234-244 | the loop keeps the current header defined and never removes a header |
| HeaderParser.ParseMimeHeaders | lib/eml-parser.ts:229-247 | the `for` loop computes the fold of the lines under the `^\s` continuation rule |
| HeaderParser.MimeHeaders | lib/eml-parser.ts:229-247 | every header name is lower-cased and trimmed, as `toLowerCase().trim()` makes it; the fold lemmas state the values |
| HeaderParser.FoldKeeps | lib/eml-parser.ts:234-244 | while the current header is another one, lines that do not define a name leave its value alone, continuation lines included |
| HeaderParser.LastWins | lib/eml-parser.ts:239-241 | a header keeps the value of its last defining line with its continuation lines appended, whatever other headers, folded or not, follow it |
| HeaderParser.FoldAppend | lib/eml-parser.ts:234-244 | the loop over two runs of lines is the loop over the second, started from the state the first left |
| HeaderParser.FoldContinuations | lib/eml-parser.ts:235-236 | continuation lines append, each trimmed after a space, to the current header and change nothing else |
| HeaderParser.Unfolding | lib/eml-parser.ts:235-241 | a header line followed by continuation lines has its value with every continuation appended |
| HeaderParser.OrphanContinuation | lib/eml-parser.ts:235 | an indented line before any header is read as an ordinary line, under either folding rule |
| HeaderParser.RulesDiffer | lib/eml-parser.ts:235 | a line starting with whitespace other than space or tab continues a header in `parseMimeHeaders` but is a line of its own in `parseEmlManually` |
| Multipart.Lookup | lib/eml-parser.ts:259-260 | a header lookup is present exactly when the name is in the record, with its value |
| Multipart.ParseMimePart | lib/eml-parser.ts:249-268 | without `\n\n` the whole content is the body with no headers; Content-Type and encoding are the headers' values; the body is a suffix of the content |
| Multipart.MimePartSplit | lib/eml-parser.ts:250-257 | a header section, a blank line and any body read back as those headers and that body |
| Multipart.CollectAll | lib/eml-parser.ts:278-283 | sections that are not blank give one part each, in order, each parsed from the trimmed section |
| Multipart.CollectBlank | lib/eml-parser.ts:279-282 | blank sections give no part |
| Multipart.ParseMultipartContent | lib/eml-parser.ts:270-286 | the `for` loop computes the parts of the sections between the first and the last delimiter |
| Multipart.MultipartParts | lib/eml-parser.ts:270-286 | at most one part per section between the first and last delimiter, and none with fewer than two sections; MultipartLayout states the parts of a written body |
| Multipart.MultipartLayout | lib/eml-parser.ts:272-283 | a body laid out as preamble, delimited sections and epilogue gives exactly the parts of those sections |
| Multipart.UnclosedBody | lib/eml-parser.ts:276-278 | a body with one delimiter gives no parts |
| Multipart.NoDelimiter | lib/eml-parser.ts:276-278 | a body without the delimiter gives no parts |
| Multipart.FindPart | lib/eml-parser.ts:290-293 | the found part has the media type and no earlier part has it; none found means no part has it |
| Multipart.ExtractBestContent | lib/eml-parser.ts:288-313 | no HTML or plain part gives the empty text; a failure needs a quoted-printable part; an HTML choice gives trimmed Markdown with at most one blank line |
| Multipart.PreferHtml | lib/eml-parser.ts:295-302 | the first HTML part is chosen wherever the plain parts are: its decoded text is transcoded, and when its decoding throws, that failure is the result, with no fallback to a plain part |
| Multipart.PlainWithoutHtml | lib/eml-parser.ts:304-310 | without HTML parts the first plain part is decoded and not transcoded |
| EmlParser.FirstBlank | lib/eml-parser.ts:325-328 | the first line that is blank once trimmed, and no earlier blank line |
| EmlParser.DecodeAll | lib/eml-parser.ts:343-345 | decoding keeps the header names and leaves values without encoded-words unchanged |
| EmlParser.Boundary | lib/eml-parser.ts:355-357 | no Content-Type means no boundary; a boundary is never empty |
| EmlParser.MessageBody | lib/eml-parser.ts:351-367 | a `boundary=` parameter gives the best content of the multipart parts; otherwise the decoded body, transcoded when the Content-Type mentions `text/html`, failing exactly when decoding fails; no Content-Type and no encoding shows the body as it is |
| EmlParser.OrDefault | lib/eml-parser.ts:371-375 | a present non-empty value is kept, a missing or empty one replaced by the fallback |
| EmlParser.ParseEml | lib/eml-parser.ts:315-378 | the record holds the decoded headers, each of subject, sender, recipient and date is its header value or its placeholder when missing or empty, the body is the shown text or `No message content found` when that is empty, and there are no attachments; it fails exactly when the body decoding fails |
| EmlParser.MissingSubject | lib/eml-parser.ts:371 | a message without a Subject header gets `No Subject`; one with a non-empty decoded Subject shows that value |
| EmlParser.ReadHeaders | lib/eml-parser.ts:321-340 | the loop with `break` and `continue` computes the fold of the lines before the first blank line, and the body starts after it, or at line 0 without one |
| EmlParser.RawHeaders | lib/eml-parser.ts:321-340 | every header name is lower-cased and trimmed, and a message that opens with a blank line has no headers |
| EmlParser.BodyText | lib/eml-parser.ts:347-349 | the body is trimmed, and without a blank line it is the whole text joined and trimmed |
| EmlParser.DecodeHeaders | lib/eml-parser.ts:343-345 | the loop over the entries decodes every header value in place |
| EmlParser.ParseEmlManually | lib/eml-parser.ts:315-378 | the imperative parser computes the specified record |
| EmlParser.MessageLayout | lib/eml-parser.ts:316-349 | header lines, a blank line and a body split there: the header lines alone make the headers and the body is the trimmed rest |
| EmlParser.MessageLayoutCRLF | lib/eml-parser.ts:316-349 | the same split for header lines ended by `\r\n`: the header lines make the headers and the body is its lines joined with `\n`, trimmed |
| EmlParser.NoBlankLine | lib/eml-parser.ts:318-349 | without a blank line every line is read as a header and the whole message, trimmed, is also the body |
| EmlParser.PlainMessage | lib/eml-parser.ts:351-375 | a message without Content-Type and Content-Transfer-Encoding parses and shows its body, or the placeholder when it is empty |
| EmlParser.HtmlMessage | lib/eml-parser.ts:362-366 | a single-part HTML body is shown as trimmed Markdown with at most one blank line |
| EmlParser.NatToString | lib/eml-parser.ts:397 | a non-empty numeral of decimal digits, without a leading zero |
| EmlParser.NatToStringValue | lib/eml-parser.ts:397 | the printed numeral reads back as the number |
| EmlParser.SizeKB | lib/eml-parser.ts:396 | `Math.round(size / 1024)`: the nearest whole number of kilobytes, halves rounded up |
| EmlParser.AttachmentSection | lib/eml-parser.ts:393-400 | the attachment section is empty exactly when there are no attachments |
| EmlParser.CreateMarkdownFromEmailData | lib/eml-parser.ts:380-403 | the appends build the specified document: fixed lines, body, then the attachment section |
| EmlParser.MarkdownDocument | lib/eml-parser.ts:380-403 | the fixed preamble with the body is a prefix of the document, and nothing follows it exactly when there are no attachments |
| EmlParser.PreambleWritten | lib/eml-parser.ts:384-391 | the templates appended one by one are the fixed lines, the blank lines between them, then the body and a blank line |
| EmlParser.DocumentLines | lib/eml-parser.ts:384-391 | with single-line values the document's first eleven lines are the title, sender, recipient, date, file name, rule and heading |
| EmlParser.ParsedHasNoAttachmentSection | lib/eml-parser.ts:376-400 | a parsed message has no attachments, so its document has no attachment section |
| EmlParser.EmlToMarkdown | lib/eml-parser.ts:405-431 | empty input is `Invalid EML content`; whitespace is `EML file is empty`; every failure carries the `Failed to parse EML file "<filename>"` prefix; success exactly when the trimmed message parses, and then the document of the parsed record |
| EmlParser.Failure | lib/eml-parser.ts:425-429 | the message is the `Failed to parse EML file "<filename>": ` prefix followed by the original error message, which can be read back |
| EmlParser.ParseEmlToMarkdown | lib/eml-parser.ts:405-431 | the method validates, parses the trimmed content and builds the document as specified |
| Text.Trim | lib/eml-parser.ts:415 | the result has no outer whitespace, is the input with a whitespace prefix and a whitespace suffix removed, is empty exactly for all-whitespace input, and leaves trimmed text alone |
| Text.TrimIdempotent | lib/eml-parser.ts:415 | trimming twice is trimming once |
| Text.IndexOfChar | lib/eml-parser.ts:238 | the first occurrence of the character at or after the start, and none earlier |
| Text.IndexOf | lib/eml-parser.ts:250 | the first occurrence of the pattern, and none earlier |
| Text.SplitOn | lib/eml-parser.ts:276 | a split has at least one piece |
| Text.JoinSplitOn | lib/eml-parser.ts:276 | joining the pieces with the delimiter restores the text |
| Text.SplitOnJoin | lib/eml-parser.ts:276 | splitting a join of pieces that do not contain or run into the delimiter gives back the pieces |
| Text.SplitLines | lib/eml-parser.ts:231 | at least one line, and no line holds a line feed |
| Text.SplitLinesCRLF | lib/eml-parser.ts:231 | a line ended by `\r\n` splits off without its carriage return |
| Text.SplitLinesCrlfLines | lib/eml-parser.ts:316 | `\r\n`-terminated single lines followed by any text split back into those lines and the text's lines |
| Text.JoinSplitLines | lib/eml-parser.ts:348-349 | without carriage returns, joining the lines with `\n` restores the text |
| Text.SplitLinesUnlines | lib/eml-parser.ts:316 | terminated single lines followed by any text split back into those lines and the text's lines |
| Text.ToLower | lib/eml-parser.ts:240 | lower-casing keeps the length, maps each ASCII capital to its small letter and keeps every other character |
| Text.ReplaceAll | lib/eml-parser.ts:215-220 | text that does not contain the pattern's first character is unchanged |
| Text.ReplaceAllSkips | lib/eml-parser.ts:215-220 | a prefix that cannot start the pattern passes through replacement unchanged |
| Text.CollapseSpaces | lib/eml-parser.ts:146 | every remaining whitespace character is a space, no two are adjacent, the result is empty and starts with whitespace exactly when the input does, and text without whitespace is unchanged |
| Text.CollapseSpacesKeepsText | lib/eml-parser.ts:146 | collapsing whitespace keeps every other character, in order |

## Left out

- iconv-lite (`decode`, `encodingExists`) and Node's `Buffer.from(text, 'base64')` are foreign code. They are the `decode`, `encodingExists` and `base64Bytes` fields of `Env`, and every result holds for any choice of them.
- The regular-expression passes of `htmlToMarkdown` other than tables, tag stripping, entities and the blank-line clean-up are two `Env` functions (`passesBeforeTables`, `passesAfterTables`). The results proved about the transcoder do not depend on them. These passes cover doctype and structure tags, title, meta, script, style, headings, emphasis, links, images, `pre`, `div`, `p`, `br`, lists and blockquotes.
- The `typeof html !== 'string'` and `typeof emlContent !== 'string'` checks are left out because the model's inputs are strings by type. An empty string is handled as the source handles it.
- `toLowerCase` and `toUpperCase` fold ASCII letters only. Full Unicode case mapping is not modelled.
- Text is a sequence of UTF-16 code units without surrogate pairs. `Buffer.from(bytes)` and `Buffer.from(text, 'binary')` keep the low 8 bits of each unit.
- Header records are Dafny maps. The JavaScript object quirks are not modelled: a header named `__proto__`, inherited property names, and the insertion order of `Object.entries`.
- `console.error` is left out because it is output only.
- EmlParser.NatToString: prints every number in decimal digits. A JavaScript template literal prints a number of 10^21 or more in exponent form (`1e+21`). That case cannot arise: `parseEmlManually` always returns an empty attachment list (lib/eml-parser.ts:376), so no size is ever printed.
- The `'Unknown error'` branch for a thrown non-`Error` value is left out: every failure the model can raise is an iconv error, which is an `Error`.
- `MimePart.boundary` and `MimePart.parts` are declared by the source but never set. They are not modelled.
- The `\r\n\r\n` header/body separator of a MIME part is not recognised, just as in the source: `parseMimePart` only looks for `\n\n`.
- HeaderParser.HeaderField: the name is lower-cased and then trimmed, as in the source. Trimming and lower-casing commute on the ASCII-only folding used here.
- `app/page.tsx` (the upload page) is not part of this model.
- `types/emailjs-mime-parser.d.ts` (a type declaration the core does not use) is not part of this model.
