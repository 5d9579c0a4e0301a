/** MIME parts: splitting a part at its first blank line, splitting a
    multipart body on its boundary delimiter (a loose, one-level reading of
    section 5.1.1 of RFC 2046), and choosing the part whose text becomes the
    message body. */
module Multipart {
  import opened Wrappers
  import opened Text
  import opened Collaborators
  import opened HeaderParser
  import opened BodyDecoder
  import opened HtmlMarkdown

  /** A part: its header record, its body, and the values of its
      Content-Type and Content-Transfer-Encoding headers (absent when the
      part has no header section or no such header). */
  datatype MimePart = MimePart(
    headers: map<string, string>,
    body: string,
    contentType: Option<string>,
    encoding: Option<string>)

  /** `headers[name]`, `undefined` being `None`. */
  function Lookup(headers: map<string, string>, name: string): (v: Option<string>)
    ensures v.Some? <==> name in headers
    ensures v.Some? ==> v.value == headers[name]
  {
    if name in headers then Some(headers[name]) else None
  }

  /** `parseMimePart(content)`: the headers are the lines before the first
      `\n\n`, the body everything after it. */
  function ParseMimePart(content: string): (p: MimePart)
    ensures IndexOf(content, "\n\n").None? ==> p == MimePart(map[], content, None, None)
    ensures p.contentType == Lookup(p.headers, "content-type")
    ensures p.encoding == Lookup(p.headers, "content-transfer-encoding")
    ensures |p.body| <= |content| && p.body == content[|content| - |p.body|..]
  {
    match IndexOf(content, "\n\n")
    case None => MimePart(map[], content, None, None)
    case Some(k) =>
      var headers := MimeHeaders(content[..k]);
      MimePart(headers, content[k + 2..], Lookup(headers, "content-type"), Lookup(headers, "content-transfer-encoding"))
  }

  /** A part written as a header section, a blank line and a body reads
      back as those headers and that body, whatever the body holds. */
  lemma MimePartSplit(section: string, body: string)
    requires SeparatedBy(section, "\n\n")
    ensures ParseMimePart(section + "\n\n" + body).headers == MimeHeaders(section)
    ensures ParseMimePart(section + "\n\n" + body).body == body
  {
    var s := section + "\n\n" + body;
    FirstOccurrenceExtends(section, "\n\n", body);
    assert s[..|section|] == section;
    assert s[|section| + 2..] == body;
  }

  /** The parts of a run of sections: each one trimmed, the blank ones
      skipped. */
  function Collect(sections: seq<string>): (parts: seq<MimePart>)
    ensures |parts| <= |sections|
    decreases |sections|
  {
    if sections == [] then []
    else
      var last := Trim(sections[|sections| - 1]);
      Collect(sections[..|sections| - 1]) + (if last == [] then [] else [ParseMimePart(last)])
  }

  /** Sections none of which is blank each give one part, in order. */
  lemma {:induction false} CollectAll(sections: seq<string>)
    requires forall j :: 0 <= j < |sections| ==> !AllSpace(sections[j])
    ensures |Collect(sections)| == |sections|
    ensures forall j :: 0 <= j < |sections| ==> Collect(sections)[j] == ParseMimePart(Trim(sections[j]))
    decreases |sections|
  {
    if sections != [] {
      var init := sections[..|sections| - 1];
      CollectAll(init);
      CollectLast(sections);
      PartsSnoc(Collect(init), init, sections);
    }
  }

  /** One more section, one more part at the same index. */
  lemma PartsSnoc(r: seq<MimePart>, init: seq<string>, sections: seq<string>)
    requires sections != [] && init == sections[..|sections| - 1] && |r| == |init|
    requires forall j :: 0 <= j < |init| ==> r[j] == ParseMimePart(Trim(init[j]))
    ensures var c := r + [ParseMimePart(Trim(sections[|sections| - 1]))];
            |c| == |sections| && forall j :: 0 <= j < |sections| ==> c[j] == ParseMimePart(Trim(sections[j]))
  {
    var c := r + [ParseMimePart(Trim(sections[|sections| - 1]))];
    var last := ParseMimePart(Trim(sections[|sections| - 1]));
    forall j | 0 <= j < |sections| ensures c[j] == ParseMimePart(Trim(sections[j])) {
      if j < |init| {
        assert c[j] == r[j];
        assert sections[j] == init[j];
      } else {
        assert j == |sections| - 1;
        assert c[j] == last;
      }
    }
  }

  /** A section that is not blank adds its part at the end. */
  lemma CollectLast(sections: seq<string>)
    requires sections != [] && !AllSpace(sections[|sections| - 1])
    ensures Collect(sections) == Collect(sections[..|sections| - 1]) + [ParseMimePart(Trim(sections[|sections| - 1]))]
  {
    assert Trim(sections[|sections| - 1]) != [];
  }

  /** Blank sections give no part at all. */
  lemma {:induction false} CollectBlank(sections: seq<string>)
    requires forall j :: 0 <= j < |sections| ==> AllSpace(sections[j])
    ensures Collect(sections) == []
    decreases |sections|
  {
    if sections != [] {
      CollectBlank(sections[..|sections| - 1]);
    }
  }

  /** The delimiter a boundary is matched as. Every character of the
      boundary is escaped before it goes into the pattern, so the pattern
      matches the delimiter literally. */
  function Delimiter(boundary: string): (d: string)
    ensures |d| == |boundary| + 2 && d[..2] == "--"
  {
    "--" + boundary
  }

  /** The parts of a multipart body: the sections between delimiters, the
      first and the last one dropped. */
  function MultipartParts(content: string, boundary: string): (parts: seq<MimePart>)
    ensures var n := |SplitOn(content, Delimiter(boundary))|;
            |parts| <= if n >= 2 then n - 2 else 0
  {
    var sections := SplitOn(content, Delimiter(boundary));
    if |sections| >= 2 then Collect(sections[1..|sections| - 1]) else []
  }

  /** `parseMultipartContent(content, boundary)`. */
  method ParseMultipartContent(content: string, boundary: string) returns (parts: seq<MimePart>)
    ensures parts == MultipartParts(content, boundary)
  {
    var sections := SplitOn(content, Delimiter(boundary));
    parts := [];
    if |sections| < 2 {
      return;
    }
    for i := 1 to |sections| - 1
      invariant parts == Collect(sections[1..i])
    {
      CollectStep(sections, i);
      var section := Trim(sections[i]);
      if section != [] {
        parts := parts + [ParseMimePart(section)];
      }
    }
  }

  /** The loop's step: section `i` adds its part, unless it is blank. */
  lemma CollectStep(sections: seq<string>, i: nat)
    requires 1 <= i < |sections|
    ensures Collect(sections[1..i + 1])
            == Collect(sections[1..i]) + (if Trim(sections[i]) == [] then [] else [ParseMimePart(Trim(sections[i]))])
  {
    assert sections[1..i + 1][..i - 1] == sections[1..i];
    assert sections[1..i + 1][i - 1] == sections[i];
  }

  /** A body laid out as preamble, delimiter, sections separated by
      delimiters, delimiter, epilogue gives exactly the parts of those
      sections: the preamble and the epilogue (the closing `--` and what
      follows it) are dropped. */
  lemma MultipartLayout(preamble: string, sections: seq<string>, epilogue: string, boundary: string)
    requires SeparatedBy(preamble, Delimiter(boundary))
    requires forall j :: 0 <= j < |sections| ==> SeparatedBy(sections[j], Delimiter(boundary))
    requires IndexOf(epilogue, Delimiter(boundary)).None?
    ensures MultipartParts(Join([preamble] + sections + [epilogue], Delimiter(boundary)), boundary) == Collect(sections)
  {
    var all := [preamble] + sections + [epilogue];
    var d := Delimiter(boundary);
    forall i | 0 <= i < |all| - 1 ensures SeparatedBy(all[i], d) {
      if i > 0 {
        assert all[i] == sections[i - 1];
      }
    }
    SplitOnJoin(all, d);
    assert all[1..|all| - 1] == sections;
  }

  /** Without a second delimiter nothing is a part: a body whose only
      delimiter is never closed gives no parts. */
  lemma UnclosedBody(preamble: string, rest: string, boundary: string)
    requires SeparatedBy(preamble, Delimiter(boundary))
    requires IndexOf(rest, Delimiter(boundary)).None?
    ensures MultipartParts(preamble + Delimiter(boundary) + rest, boundary) == []
  {
    var d := Delimiter(boundary);
    var all := [preamble, rest];
    assert Join(all, d) == preamble + d + rest by {
      assert all[1..] == [rest];
    }
    SplitOnJoin(all, d);
  }

  /** A body without the delimiter gives no parts. */
  lemma NoDelimiter(content: string, boundary: string)
    requires IndexOf(content, Delimiter(boundary)).None?
    ensures MultipartParts(content, boundary) == []
  {
  }

  predicate HasType(p: MimePart, mediaType: string) {
    p.contentType.Some? && Contains(p.contentType.value, mediaType)
  }

  /** `parts.find(part => part.contentType?.includes(mediaType))`, as an index. */
  function FindPart(parts: seq<MimePart>, mediaType: string): (r: Option<nat>)
    ensures r.Some? ==> r.value < |parts| && HasType(parts[r.value], mediaType)
    ensures forall j :: 0 <= j < |parts| && (r.None? || j < r.value) ==> !HasType(parts[j], mediaType)
    decreases |parts|
  {
    if parts == [] then None
    else if HasType(parts[0], mediaType) then Some(0)
    else
      match FindPart(parts[1..], mediaType)
      case None => None
      case Some(j) => Some(j + 1)
  }

  /** The decoded text of a part. */
  function PartText(env: Env, p: MimePart): Result<string> {
    DetectAndDecodeText(env, p.body, p.contentType, p.encoding)
  }

  /** `extractBestContent(parts)`: the first HTML part, decoded and
      transcoded; otherwise the first plain-text part, decoded; otherwise
      the empty text. A decoding failure of the chosen part propagates. */
  function ExtractBestContent(env: Env, parts: seq<MimePart>): (r: Result<string>)
    ensures (forall j :: 0 <= j < |parts| ==> !HasType(parts[j], "text/html") && !HasType(parts[j], "text/plain"))
            ==> r == Ok([])
    ensures r.Err? ==> exists j :: 0 <= j < |parts| && IsTransferEncoding(parts[j].encoding, "quoted-printable")
    ensures FindPart(parts, "text/html").Some? && r.Ok? ==> Trimmed(r.value) && AtMostOneBlankLine(r.value)
  {
    match FindPart(parts, "text/html")
    case Some(i) =>
      (match PartText(env, parts[i])
       case Err(m) => Err(m)
       case Ok(decoded) => Ok(HtmlToMarkdown(env, decoded)))
    case None =>
      (match FindPart(parts, "text/plain")
       case Some(i) => PartText(env, parts[i])
       case None => Ok([]))
  }

  /** HTML wins: wherever the plain-text parts are, the first HTML part is
      the one chosen, and the result is its transcoded text; when its
      decoding fails, that failure is the result, with no fallback to a
      plain-text part. */
  lemma PreferHtml(env: Env, parts: seq<MimePart>, i: nat)
    requires i < |parts| && HasType(parts[i], "text/html")
    requires forall j :: 0 <= j < i ==> !HasType(parts[j], "text/html")
    ensures PartText(env, parts[i]).Ok? ==>
              ExtractBestContent(env, parts) == Ok(HtmlToMarkdown(env, PartText(env, parts[i]).value))
    ensures PartText(env, parts[i]).Err? ==> ExtractBestContent(env, parts) == PartText(env, parts[i])
  {
    assert FindPart(parts, "text/html") == Some(i);
  }

  /** Without an HTML part, the first plain-text part is decoded and not
      transcoded. */
  lemma PlainWithoutHtml(env: Env, parts: seq<MimePart>, i: nat)
    requires forall j :: 0 <= j < |parts| ==> !HasType(parts[j], "text/html")
    requires i < |parts| && HasType(parts[i], "text/plain")
    requires forall j :: 0 <= j < i ==> !HasType(parts[j], "text/plain")
    ensures ExtractBestContent(env, parts) == PartText(env, parts[i])
  {
    assert FindPart(parts, "text/plain") == Some(i);
  }
}
