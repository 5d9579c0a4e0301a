/** The message parser and the Markdown document: `parseEmlManually`
    splits a message (section 2.1 of RFC 5322) into a header record and a
    body and picks the text to show; `createMarkdownFromEmailData` lays the
    result out; `parseEmlToMarkdown` validates its input and wraps every
    failure with the file name. */
module EmlParser {
  import opened Wrappers
  import opened Text
  import opened Collaborators
  import opened HeaderParser
  import opened HeaderDecoder
  import opened BodyDecoder
  import opened HtmlMarkdown
  import opened Multipart

  datatype Attachment = Attachment(filename: string, contentType: string, size: nat)

  datatype EmailData = EmailData(
    headers: map<string, string>,
    subject: string,
    from: string,
    to: string,
    date: string,
    body: string,
    attachments: seq<Attachment>)

  // Splitting the message.

  /** The first line that is blank once trimmed. */
  function FirstBlank(lines: seq<string>): (r: Option<nat>)
    ensures r.Some? ==> r.value < |lines| && AllSpace(lines[r.value])
    ensures forall j :: 0 <= j < |lines| && (r.None? || j < r.value) ==> !AllSpace(lines[j])
    decreases |lines|
  {
    if lines == [] then None
    else if AllSpace(lines[0]) then Some(0)
    else
      match FirstBlank(lines[1..])
      case None => None
      case Some(j) => Some(j + 1)
  }

  /** The number of header lines: those before the first blank line, or
      all of them. */
  function HeaderCount(lines: seq<string>): (n: nat)
    ensures n <= |lines|
  {
    match FirstBlank(lines)
    case Some(i) => i
    case None => |lines|
  }

  /** Where the body starts: after the first blank line, or, when there is
      none, at the first line. */
  function BodyStart(lines: seq<string>): (b: nat)
    ensures b <= |lines|
  {
    match FirstBlank(lines)
    case Some(i) => i + 1
    case None => 0
  }

  /** The header record as the header loop builds it. */
  function RawHeaders(lines: seq<string>): (headers: map<string, string>)
    ensures NamesLower(headers)
    ensures lines != [] && Trim(lines[0]) == [] ==> headers == map[]
  {
    FoldNames(SpaceOrTab, Initial, lines[..HeaderCount(lines)]);
    Fold(SpaceOrTab, Initial, lines[..HeaderCount(lines)]).headers
  }

  /** Every header value with its encoded-words decoded. */
  function DecodeAll(env: Env, raw: map<string, string>): (decoded: map<string, string>)
    ensures decoded.Keys == raw.Keys
    ensures forall name :: name in raw && (forall i :: 0 <= i < |raw[name]| - 1 ==> !(raw[name][i] == '=' && raw[name][i + 1] == '?'))
              ==> decoded[name] == raw[name]
  {
    map name | name in raw :: DecodeHeaderValue(env, raw[name])
  }

  /** The body lines joined with `\n`, trimmed. */
  function BodyText(lines: seq<string>): (body: string)
    ensures Trimmed(body)
    ensures FirstBlank(lines).None? ==> body == Trim(Join(lines, "\n"))
  {
    Trim(Join(lines[BodyStart(lines)..], "\n"))
  }

  /** The `boundary=` parameter of a Content-Type. */
  function Boundary(contentType: Option<string>): (b: Option<string>)
    ensures contentType.None? ==> b.None?
    ensures b.Some? ==> b.value != []
  {
    match contentType
    case None => None
    case Some(ct) => ParamValue(ct, "boundary=")
  }

  /** The text shown for a message body: the best part of a multipart body;
      otherwise the decoded body, transcoded when its Content-Type mentions
      `text/html`. */
  function MessageBody(env: Env, headers: map<string, string>, body: string): (r: Result<string>)
    ensures r.Err? ==>
              || (Boundary(Lookup(headers, "content-type")).None?
                  && IsTransferEncoding(Lookup(headers, "content-transfer-encoding"), "quoted-printable"))
              || (Boundary(Lookup(headers, "content-type")).Some?
                  && var parts := MultipartParts(body, Boundary(Lookup(headers, "content-type")).value);
                     exists j :: 0 <= j < |parts| && IsTransferEncoding(parts[j].encoding, "quoted-printable"))
    ensures "content-type" !in headers && "content-transfer-encoding" !in headers ==> r == Ok(body)
    ensures Boundary(Lookup(headers, "content-type")).Some? ==>
              r == ExtractBestContent(env, MultipartParts(body, Boundary(Lookup(headers, "content-type")).value))
    ensures Boundary(Lookup(headers, "content-type")).None? ==>
              var decoded := DetectAndDecodeText(env, body, Lookup(headers, "content-type"), Lookup(headers, "content-transfer-encoding"));
              && (r.Err? <==> decoded.Err?)
              && (r.Ok? && "content-type" in headers && Contains(headers["content-type"], "text/html") ==>
                    r.value == HtmlToMarkdown(env, decoded.value))
              && (r.Ok? && !("content-type" in headers && Contains(headers["content-type"], "text/html")) ==>
                    r.value == decoded.value)
  {
    var contentType := Lookup(headers, "content-type");
    var encoding := Lookup(headers, "content-transfer-encoding");
    match Boundary(contentType)
    case Some(boundary) => ExtractBestContent(env, MultipartParts(body, boundary))
    case None =>
      match DetectAndDecodeText(env, body, contentType, encoding)
      case Err(m) => Err(m)
      case Ok(decoded) =>
        if contentType.Some? && Contains(contentType.value, "text/html") then Ok(HtmlToMarkdown(env, decoded))
        else Ok(decoded)
  }

  /** `value || fallback`: a missing or empty value is replaced. */
  function OrDefault(value: Option<string>, fallback: string): (r: string)
    ensures value.Some? && value.value != [] ==> r == value.value
    ensures value.None? || value.value == [] ==> r == fallback
  {
    if value.Some? && value.value != [] then value.value else fallback
  }

  const NoContent := "No message content found"

  /** `parseEmlManually(emlContent)`; `Err` when decoding the chosen body
      throws. */
  function ParseEml(env: Env, content: string): (r: Result<EmailData>)
    ensures r.Ok? ==>
              && r.value.headers == DecodeAll(env, RawHeaders(SplitLines(content)))
              && r.value.subject != [] && r.value.from != [] && r.value.to != [] && r.value.date != []
              && r.value.body != [] && r.value.attachments == []
    ensures r.Err? <==> MessageBody(env, DecodeAll(env, RawHeaders(SplitLines(content))), BodyText(SplitLines(content))).Err?
    ensures r.Ok? ==>
              var headers := r.value.headers;
              && r.value.subject == OrDefault(Lookup(headers, "subject"), "No Subject")
              && r.value.from == OrDefault(Lookup(headers, "from"), "Unknown Sender")
              && r.value.to == OrDefault(Lookup(headers, "to"), "Unknown Recipient")
              && r.value.date == OrDefault(Lookup(headers, "date"), "Unknown Date")
    ensures r.Ok? ==>
              var shown := MessageBody(env, r.value.headers, BodyText(SplitLines(content))).value;
              r.value.body == if shown == [] then NoContent else shown
  {
    var lines := SplitLines(content);
    var headers := DecodeAll(env, RawHeaders(lines));
    match MessageBody(env, headers, BodyText(lines))
    case Err(m) => Err(m)
    case Ok(body) =>
      Ok(EmailData(
        headers,
        OrDefault(Lookup(headers, "subject"), "No Subject"),
        OrDefault(Lookup(headers, "from"), "Unknown Sender"),
        OrDefault(Lookup(headers, "to"), "Unknown Recipient"),
        OrDefault(Lookup(headers, "date"), "Unknown Date"),
        if body == [] then NoContent else body,
        []))
  }

  /** The header loop of `parseEmlManually`: it stops at the first blank
      line, which is where the body starts. */
  method ReadHeaders(lines: seq<string>) returns (headers: map<string, string>, bodyStart: nat)
    ensures headers == RawHeaders(lines)
    ensures bodyStart == BodyStart(lines)
  {
    headers := map[];
    bodyStart := 0;
    var current := "";
    ghost var n := HeaderCount(lines);
    var i := 0;
    while i < |lines|
      invariant 0 <= i <= n <= |lines|
      invariant forall j :: 0 <= j < i ==> !AllSpace(lines[j])
      invariant Valid(HeaderState(headers, current))
      invariant Fold(SpaceOrTab, HeaderState(headers, current), lines[i..n]) == Fold(SpaceOrTab, Initial, lines[..n])
      invariant bodyStart == 0
    {
      var line := lines[i];
      if Trim(line) == [] {
        FirstBlankAt(lines, i);
        assert lines[i..n] == [];
        bodyStart := i + 1;
        break;
      }
      PastHeaderLine(lines, i);
      ghost var st := HeaderState(headers, current);
      FoldSliceStep(SpaceOrTab, st, lines, i, n);
      if line != [] && (line[0] == ' ' || line[0] == '\t') && current != [] {
        ContinuationStep(SpaceOrTab, st, line);
        headers := headers[current := headers[current] + " " + Trim(line)];
        i := i + 1;
        continue;
      }
      var field := HeaderField(line);
      if field.Some? {
        current := field.value.0;
        headers := headers[current := field.value.1];
      }
      i := i + 1;
    }
  }

  lemma FirstBlankAt(lines: seq<string>, i: nat)
    requires i < |lines| && AllSpace(lines[i])
    requires forall j :: 0 <= j < i ==> !AllSpace(lines[j])
    ensures FirstBlank(lines) == Some(i)
  {
  }

  lemma PastHeaderLine(lines: seq<string>, i: nat)
    requires i < |lines| && forall j :: 0 <= j <= i ==> !AllSpace(lines[j])
    ensures i < HeaderCount(lines)
  {
  }

  /** The loop of `parseEmlManually` that decodes every header value in
      place. */
  method DecodeHeaders(env: Env, raw: map<string, string>) returns (headers: map<string, string>)
    ensures headers == DecodeAll(env, raw)
  {
    headers := raw;
    var pending := headers.Keys;
    while pending != {}
      invariant pending <= raw.Keys && headers.Keys == raw.Keys
      invariant forall name :: name in raw && name !in pending ==> headers[name] == DecodeHeaderValue(env, raw[name])
      invariant forall name :: name in pending ==> headers[name] == raw[name]
      decreases pending
    {
      var name :| name in pending;
      headers := headers[name := DecodeHeaderValue(env, headers[name])];
      pending := pending - {name};
    }
  }

  /** `parseEmlManually`: the two loops, then the choice of the body text. */
  method ParseEmlManually(env: Env, content: string) returns (r: Result<EmailData>)
    ensures r == ParseEml(env, content)
  {
    var lines := SplitLines(content);
    var raw, bodyStart := ReadHeaders(lines);
    var headers := DecodeHeaders(env, raw);
    var body := Trim(Join(lines[bodyStart..], "\n"));
    var contentType := Lookup(headers, "content-type");
    var encoding := Lookup(headers, "content-transfer-encoding");
    var text: Result<string>;
    var boundary := Boundary(contentType);
    if boundary.Some? {
      var parts := ParseMultipartContent(body, boundary.value);
      text := ExtractBestContent(env, parts);
    } else {
      text := DetectAndDecodeText(env, body, contentType, encoding);
      if text.Ok? && contentType.Some? && Contains(contentType.value, "text/html") {
        text := Ok(HtmlToMarkdown(env, text.value));
      }
    }
    if text.Err? {
      return Err(text.message);
    }
    r := Ok(EmailData(
      headers,
      OrDefault(Lookup(headers, "subject"), "No Subject"),
      OrDefault(Lookup(headers, "from"), "Unknown Sender"),
      OrDefault(Lookup(headers, "to"), "Unknown Recipient"),
      OrDefault(Lookup(headers, "date"), "Unknown Date"),
      if text.value == [] then NoContent else text.value,
      []));
  }

  /** A message laid out as header lines, a blank line and a body splits
      there: the header lines alone make the header record, and the body is
      the rest, trimmed. */
  lemma MessageLayout(headerLines: seq<string>, body: string)
    requires forall i :: 0 <= i < |headerLines| ==> '\n' !in headerLines[i] && '\r' !in headerLines[i]
    requires forall i :: 0 <= i < |headerLines| ==> !AllSpace(headerLines[i])
    requires '\r' !in body
    ensures RawHeaders(SplitLines(Unlines(headerLines) + ("\n" + body)))
            == Fold(SpaceOrTab, Initial, headerLines).headers
    ensures BodyText(SplitLines(Unlines(headerLines) + ("\n" + body))) == Trim(body)
  {
    LayoutLines(headerLines, body);
    LayoutSplit(headerLines, SplitLines(body));
    JoinSplitLines(body);
  }

  /** The lines of such a message: the header lines, an empty line, the
      lines of the body. */
  lemma LayoutLines(headerLines: seq<string>, body: string)
    requires forall i :: 0 <= i < |headerLines| ==> '\n' !in headerLines[i] && '\r' !in headerLines[i]
    ensures SplitLines(Unlines(headerLines) + ("\n" + body)) == headerLines + ([""] + SplitLines(body))
  {
    SplitLinesUnlines(headerLines, "\n" + body);
    assert "" + "\n" + body == "\n" + body;
    SplitLinesCons("", body);
  }

  /** The first empty line after non-blank header lines ends the headers. */
  lemma LayoutSplit(headerLines: seq<string>, bodyLines: seq<string>)
    requires forall i :: 0 <= i < |headerLines| ==> !AllSpace(headerLines[i])
    ensures var lines := headerLines + ([""] + bodyLines);
            HeaderCount(lines) == |headerLines| && BodyStart(lines) == |headerLines| + 1
            && lines[..|headerLines|] == headerLines && lines[|headerLines| + 1..] == bodyLines
  {
    var lines := headerLines + ([""] + bodyLines);
    var k := |headerLines|;
    forall j | 0 <= j < k ensures !AllSpace(lines[j]) {
      assert lines[j] == headerLines[j];
    }
    assert lines[k] == "";
    FirstBlankAt(lines, k);
    assert lines[..k] == headerLines;
    assert lines[k + 1..] == bodyLines;
  }

  /** Without a blank line the header loop never stops early, and the
      whole message, header lines included, is also the body. */
  lemma NoBlankLine(content: string)
    requires '\r' !in content
    requires FirstBlank(SplitLines(content)).None?
    ensures BodyText(SplitLines(content)) == Trim(content)
    ensures RawHeaders(SplitLines(content)) == Fold(SpaceOrTab, Initial, SplitLines(content)).headers
  {
    var lines := SplitLines(content);
    assert lines[0..] == lines && lines[..|lines|] == lines;
    JoinSplitLines(content);
  }

  /** A message without Content-Type and Content-Transfer-Encoding headers
      shows its body as it is, or the placeholder when the body is empty. */
  lemma PlainMessage(env: Env, content: string)
    requires "content-type" !in RawHeaders(SplitLines(content))
    requires "content-transfer-encoding" !in RawHeaders(SplitLines(content))
    ensures ParseEml(env, content).Ok?
    ensures ParseEml(env, content).value.body
            == if BodyText(SplitLines(content)) == [] then NoContent else BodyText(SplitLines(content))
  {
  }

  /** A single-part HTML message that decodes is shown as trimmed Markdown
      with at most one blank line anywhere. */
  lemma HtmlMessage(env: Env, headers: map<string, string>, body: string)
    requires "content-type" in headers && Contains(headers["content-type"], "text/html")
    requires Boundary(Lookup(headers, "content-type")).None?
    requires MessageBody(env, headers, body).Ok?
    ensures Trimmed(MessageBody(env, headers, body).value)
    ensures AtMostOneBlankLine(MessageBody(env, headers, body).value)
  {
  }

  /** A message without a Subject header is shown with the placeholder
      subject; one with a non-empty Subject shows its decoded value. */
  lemma MissingSubject(env: Env, content: string)
    requires ParseEml(env, content).Ok?
    ensures "subject" !in RawHeaders(SplitLines(content)) ==> ParseEml(env, content).value.subject == "No Subject"
    ensures var raw := RawHeaders(SplitLines(content));
            "subject" in raw && DecodeHeaderValue(env, raw["subject"]) != [] ==>
              ParseEml(env, content).value.subject == DecodeHeaderValue(env, raw["subject"])
  {
    var raw := RawHeaders(SplitLines(content));
    var d := ParseEml(env, content).value;
    assert d.headers.Keys == raw.Keys;
    if "subject" in raw {
      assert d.headers["subject"] == DecodeHeaderValue(env, raw["subject"]);
    }
  }

  /** The same split for a message with CRLF line ends, the form section
      2.1 of RFC 5322 prescribes: the header lines make the header record,
      and the body is its lines joined with `\n`, trimmed. */
  lemma MessageLayoutCRLF(headerLines: seq<string>, body: string)
    requires forall i :: 0 <= i < |headerLines| ==> '\n' !in headerLines[i] && '\r' !in headerLines[i]
    requires forall i :: 0 <= i < |headerLines| ==> !AllSpace(headerLines[i])
    ensures RawHeaders(SplitLines(CrlfLines(headerLines) + ("\r\n" + body)))
            == Fold(SpaceOrTab, Initial, headerLines).headers
    ensures BodyText(SplitLines(CrlfLines(headerLines) + ("\r\n" + body)))
            == Trim(Join(SplitLines(body), "\n"))
  {
    SplitLinesCrlfLines(headerLines, "\r\n" + body);
    assert "" + "\r\n" + body == "\r\n" + body;
    SplitLinesCRLF("", body);
    LayoutSplit(headerLines, SplitLines(body));
  }

  // The Markdown document.

  function DigitChar(d: nat): (c: char)
    requires d < 10
    ensures '0' <= c <= '9'
  {
    ('0' as int + d) as char
  }

  /** The decimal numeral of a number, as a template literal prints it. */
  function NatToString(n: nat): (s: string)
    ensures s != [] && forall i :: 0 <= i < |s| ==> '0' <= s[i] <= '9'
    ensures |s| > 1 ==> s[0] != '0'
    decreases n
  {
    if n < 10 then [DigitChar(n)] else NatToString(n / 10) + [DigitChar(n % 10)]
  }

  /** The number a decimal numeral stands for. */
  function DecimalValue(s: string): nat
    requires forall i :: 0 <= i < |s| ==> '0' <= s[i] <= '9'
    decreases |s|
  {
    if s == [] then 0 else DecimalValue(s[..|s| - 1]) * 10 + (s[|s| - 1] as int - '0' as int)
  }

  /** The numeral reads back as the number it was printed from. */
  lemma {:induction false} NatToStringValue(n: nat)
    ensures DecimalValue(NatToString(n)) == n
    decreases n
  {
    if n >= 10 {
      NatToStringValue(n / 10);
      var s := NatToString(n);
      assert s[..|s| - 1] == NatToString(n / 10);
    }
  }

  /** `Math.round(size / 1024)`: the nearest whole number of kilobytes,
      halves rounded up. */
  function SizeKB(size: nat): (kb: nat)
    ensures 1024 * kb <= size + 512 < 1024 * kb + 1024
  {
    (size + 512) / 1024
  }

  /** The fixed lines of the document before the body: the title, the
      sender, the recipient, the date, the file name, a rule and the
      message heading, with blank lines between the groups. */
  function HeadLines(d: EmailData, filename: string): (lines: seq<string>)
    ensures |lines| == 11
  {
    ["# " + d.subject, "",
     "**From:** " + d.from,
     "**To:** " + d.to,
     "**Date:** " + d.date,
     "**Original File:** " + filename, "",
     "---", "",
     "## Message", ""]
  }

  /** Everything up to and including the message body. */
  function Preamble(d: EmailData, filename: string): string {
    Unlines(HeadLines(d, filename)) + d.body + "\n\n"
  }

  function AttachmentLine(a: Attachment): string {
    "- **" + a.filename + "** (" + a.contentType + ", " + NatToString(SizeKB(a.size)) + " KB)\n"
  }

  /** One line per attachment, in order. */
  function AttachmentLines(attachments: seq<Attachment>): string
    decreases |attachments|
  {
    if attachments == [] then []
    else AttachmentLines(attachments[..|attachments| - 1]) + AttachmentLine(attachments[|attachments| - 1])
  }

  /** The attachment list, present only when there are attachments. */
  function AttachmentSection(attachments: seq<Attachment>): (r: string)
    ensures r == [] <==> attachments == []
  {
    if attachments == [] then [] else "## Attachments\n\n" + AttachmentLines(attachments) + "\n"
  }

  /** The document: the preamble, then the attachment section, which is
      present exactly when there are attachments. */
  function MarkdownDocument(d: EmailData, filename: string): (doc: string)
    ensures |Preamble(d, filename)| <= |doc| && doc[..|Preamble(d, filename)|] == Preamble(d, filename)
    ensures doc == Preamble(d, filename) <==> d.attachments == []
  {
    Preamble(d, filename) + AttachmentSection(d.attachments)
  }

  /** `createMarkdownFromEmailData(emailData, filename)`. */
  method CreateMarkdownFromEmailData(d: EmailData, filename: string) returns (markdown: string)
    ensures markdown == MarkdownDocument(d, filename)
  {
    markdown := "# " + d.subject + "\n\n";
    markdown := markdown + ("**From:** " + d.from + "\n");
    markdown := markdown + ("**To:** " + d.to + "\n");
    markdown := markdown + ("**Date:** " + d.date + "\n");
    markdown := markdown + ("**Original File:** " + filename + "\n\n");
    markdown := markdown + "---\n\n";
    markdown := markdown + "## Message\n\n";
    markdown := markdown + (d.body + "\n\n");
    PreambleWritten(d, filename);
    ghost var preamble := markdown;
    if |d.attachments| > 0 {
      markdown := markdown + "## Attachments\n\n";
      ghost var head := markdown;
      for i := 0 to |d.attachments|
        invariant markdown == head + AttachmentLines(d.attachments[..i])
      {
        var a := d.attachments[i];
        var sizeKB := SizeKB(a.size);
        AttachmentAppended(head, d.attachments, i);
        markdown := markdown + ("- **" + a.filename + "** (" + a.contentType + ", " + NatToString(sizeKB) + " KB)\n");
      }
      SectionClosed(preamble, d.attachments);
      markdown := markdown + "\n";
    }
  }

  /** The loop's step: one more attachment line. */
  lemma AttachmentAppended(head: string, attachments: seq<Attachment>, i: nat)
    requires i < |attachments|
    ensures head + AttachmentLines(attachments[..i]) + AttachmentLine(attachments[i])
            == head + AttachmentLines(attachments[..i + 1])
  {
    assert attachments[..i + 1][..i] == attachments[..i];
    Assoc(head, AttachmentLines(attachments[..i]), AttachmentLine(attachments[i]));
  }

  /** The heading, every line, and the closing line feed make the section. */
  lemma SectionClosed(preamble: string, attachments: seq<Attachment>)
    requires attachments != []
    ensures preamble + "## Attachments\n\n" + AttachmentLines(attachments[..|attachments|]) + "\n"
            == preamble + AttachmentSection(attachments)
  {
    assert attachments[..|attachments|] == attachments;
    var h := "## Attachments\n\n";
    Assoc(preamble + h, AttachmentLines(attachments), "\n");
    Assoc(preamble, h + AttachmentLines(attachments), "\n");
    Assoc(preamble, h, AttachmentLines(attachments));
  }

  /** The title, the sender, the recipient, the date and the file name
      each sit on a line of their own, ahead of the body. */
  lemma DocumentLines(d: EmailData, filename: string)
    requires '\n' !in d.subject && '\r' !in d.subject
    requires '\n' !in d.from && '\r' !in d.from
    requires '\n' !in d.to && '\r' !in d.to
    requires '\n' !in d.date && '\r' !in d.date
    requires '\n' !in filename && '\r' !in filename
    ensures SplitLines(MarkdownDocument(d, filename))
            == HeadLines(d, filename) + SplitLines(d.body + "\n\n" + AttachmentSection(d.attachments))
  {
    var ls := HeadLines(d, filename);
    var tail := d.body + "\n\n" + AttachmentSection(d.attachments);
    HeadLinesSingle(d, filename);
    Assoc(Unlines(ls), d.body, "\n\n");
    Assoc(Unlines(ls), d.body + "\n\n", AttachmentSection(d.attachments));
    SplitLinesUnlines(ls, tail);
  }

  /** Each fixed line is a single line when the values in it are. */
  lemma HeadLinesSingle(d: EmailData, filename: string)
    requires '\n' !in d.subject && '\r' !in d.subject
    requires '\n' !in d.from && '\r' !in d.from
    requires '\n' !in d.to && '\r' !in d.to
    requires '\n' !in d.date && '\r' !in d.date
    requires '\n' !in filename && '\r' !in filename
    ensures forall i :: 0 <= i < 11 ==> '\n' !in HeadLines(d, filename)[i] && '\r' !in HeadLines(d, filename)[i]
  {
    var ls := HeadLines(d, filename);
    forall i | 0 <= i < 11 ensures '\n' !in ls[i] && '\r' !in ls[i] {
    }
  }

  /** The first five lines as `createMarkdownFromEmailData` appends them,
      each template evaluated before it is appended. */
  lemma HeadWritten(d: EmailData, filename: string)
    ensures "# " + d.subject + "\n\n"
            + ("**From:** " + d.from + "\n")
            + ("**To:** " + d.to + "\n")
            + ("**Date:** " + d.date + "\n")
            == Unlines(HeadLines(d, filename)[..5])
  {
    var ls := HeadLines(d, filename);
    assert ls[..0] == [];
    AppendLineAndBlank([], ls, 0);
    var m2 := "# " + d.subject + "\n\n";
    assert m2 == [] + (ls[0] + "\n\n");
    AppendLine(m2, ls, 2);
    var m3 := m2 + ("**From:** " + d.from + "\n");
    AppendLine(m3, ls, 3);
    var m4 := m3 + ("**To:** " + d.to + "\n");
    AppendLine(m4, ls, 4);
  }

  /** The text `createMarkdownFromEmailData` appends piece by piece is the
      preamble. */
  lemma PreambleWritten(d: EmailData, filename: string)
    ensures "# " + d.subject + "\n\n"
            + ("**From:** " + d.from + "\n")
            + ("**To:** " + d.to + "\n")
            + ("**Date:** " + d.date + "\n")
            + ("**Original File:** " + filename + "\n\n")
            + "---\n\n"
            + "## Message\n\n"
            + (d.body + "\n\n")
            == Preamble(d, filename)
  {
    var ls := HeadLines(d, filename);
    var m5 := "# " + d.subject + "\n\n"
            + ("**From:** " + d.from + "\n")
            + ("**To:** " + d.to + "\n")
            + ("**Date:** " + d.date + "\n");
    HeadWritten(d, filename);
    AppendLineAndBlank(m5, ls, 5);
    var m7 := m5 + ("**Original File:** " + filename + "\n\n");
    AppendLineAndBlank(m7, ls, 7);
    assert "---\n\n" == ls[7] + "\n\n";
    var m9 := m7 + "---\n\n";
    AppendLineAndBlank(m9, ls, 9);
    assert "## Message\n\n" == ls[9] + "\n\n";
    var m11 := m9 + "## Message\n\n";
    assert ls[..11] == ls;
    Assoc(m11, d.body, "\n\n");
  }

  /** A parsed message has no attachments, so its document ends with the
      body and no attachment section. */
  lemma ParsedHasNoAttachmentSection(env: Env, content: string, filename: string)
    requires ParseEml(env, content).Ok?
    ensures MarkdownDocument(ParseEml(env, content).value, filename) == Preamble(ParseEml(env, content).value, filename)
  {
  }

  // Validation and error wrapping.

  /** The message every failure is reported with. */
  function Failure(filename: string, message: string): (m: string)
    ensures var prefix := "Failed to parse EML file \"" + filename + "\": ";
            |m| == |prefix| + |message| && m[..|prefix|] == prefix && m[|prefix|..] == message
  {
    "Failed to parse EML file \"" + filename + "\": " + message
  }

  /** `parseEmlToMarkdown(emlContent, filename)`: `Err` stands for the
      exception it throws. */
  function EmlToMarkdown(env: Env, content: string, filename: string): (r: Result<string>)
    ensures content == [] ==> r == Err(Failure(filename, "Invalid EML content"))
    ensures content != [] && AllSpace(content) ==> r == Err(Failure(filename, "EML file is empty"))
    ensures r.Err? ==>
              var prefix := "Failed to parse EML file \"" + filename + "\": ";
              |prefix| <= |r.message| && r.message[..|prefix|] == prefix
    ensures r.Ok? <==> !AllSpace(content) && ParseEml(env, Trim(content)).Ok?
    ensures r.Ok? ==> r.value == MarkdownDocument(ParseEml(env, Trim(content)).value, filename)
  {
    if content == [] then Err(Failure(filename, "Invalid EML content"))
    else
      var cleaned := Trim(content);
      if cleaned == [] then Err(Failure(filename, "EML file is empty"))
      else
        match ParseEml(env, cleaned)
        case Err(m) => Err(Failure(filename, m))
        case Ok(d) => Ok(MarkdownDocument(d, filename))
  }

  /** `parseEmlToMarkdown`, calling the parser and the document builder. */
  method ParseEmlToMarkdown(env: Env, content: string, filename: string) returns (r: Result<string>)
    ensures r == EmlToMarkdown(env, content, filename)
  {
    if content == [] {
      return Err(Failure(filename, "Invalid EML content"));
    }
    var cleaned := Trim(content);
    if |cleaned| == 0 {
      return Err(Failure(filename, "EML file is empty"));
    }
    var data := ParseEmlManually(env, cleaned);
    if data.Err? {
      return Err(Failure(filename, data.message));
    }
    var markdown := CreateMarkdownFromEmailData(data.value, filename);
    r := Ok(markdown);
  }
}
