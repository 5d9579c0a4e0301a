/** Header blocks: a header line is split at its first colon, its name
    lower-cased and trimmed, its value trimmed; a continuation line is
    appended to the most recent header (unfolding, section 2.2.3 of
    RFC 5322); a repeated name overwrites the earlier value. The same fold
    serves `parseMimeHeaders` and the header loop of `parseEmlManually`,
    which differ only in what counts as a continuation line. */
module HeaderParser {
  import opened Wrappers
  import opened Text

  /** `parseEmlManually` continues a header on a line that starts with a
      space or a tab; `parseMimeHeaders` on one that matches `^\s`. */
  datatype FoldingRule = SpaceOrTab | AnyWhitespace

  predicate IsContinuation(rule: FoldingRule, line: string) {
    line != [] &&
    match rule
    case SpaceOrTab => line[0] == ' ' || line[0] == '\t'
    case AnyWhitespace => IsSpace(line[0])
  }

  /** The name and value of a line whose first colon is not at its start. */
  function HeaderField(line: string): (f: Option<(string, string)>)
    ensures f.Some? ==> Trimmed(f.value.0) && IsLower(f.value.0) && Trimmed(f.value.1)
    ensures f.Some? ==> ':' in line && line[0] != ':'
    ensures ':' !in line ==> f.None?
  {
    match IndexOfChar(line, ':', 0)
    case None => None
    case Some(k) =>
      if k > 0 then
        var name := Trim(ToLower(line[..k]));
        LowerSlice(ToLower(line[..k]), LeadingSpaces(ToLower(line[..k])), |name|);
        Some((name, Trim(line[k + 1..])))
      else None
  }

  lemma LowerSlice(s: string, i: nat, n: nat)
    requires IsLower(s) && i + n <= |s|
    ensures IsLower(s[i..i + n])
  {
    var t := s[i..i + n];
    forall k | 0 <= k < |t| ensures ToLowerChar(t[k]) == t[k] {
      assert t[k] == s[i + k];
    }
  }

  /** A line written as `Name: value` reads back as the lower-cased,
      trimmed name and the trimmed value. */
  lemma HeaderFieldReadsWritten(name: string, value: string)
    requires name != [] && name[0] != ':' && ':' !in name
    ensures HeaderField(name + ":" + value) == Some((Trim(ToLower(name)), Trim(value)))
  {
    var line := name + ":" + value;
    assert line[|name|] == ':';
    forall j | 0 <= j < |name| ensures line[j] != ':' {
      assert line[j] == name[j];
    }
    assert IndexOfChar(line, ':', 0) == Some(|name|);
    assert line[..|name|] == name;
    assert line[|name| + 1..] == value;
  }

  /** The header record being built, and the name of the most recent
      header (`""` before any). */
  datatype HeaderState = HeaderState(headers: map<string, string>, current: string)

  const Initial := HeaderState(map[], "")

  /** A continuation always has a header to extend. */
  predicate Valid(st: HeaderState) {
    st.current != [] ==> st.current in st.headers
  }

  /** One line of the loop. */
  function Step(rule: FoldingRule, st: HeaderState, line: string): (r: HeaderState)
    requires Valid(st)
    ensures Valid(r)
    ensures st.headers.Keys <= r.headers.Keys
    ensures forall n :: n in st.headers && n != r.current ==> r.headers[n] == st.headers[n]
    ensures HeaderField(line).None? && !(IsContinuation(rule, line) && st.current != []) ==> r == st
    ensures HeaderField(line).Some? && !IsContinuation(rule, line) ==>
              r.current == HeaderField(line).value.0 && r.current in r.headers
              && r.headers[r.current] == HeaderField(line).value.1
  {
    if IsContinuation(rule, line) && st.current != [] then
      HeaderState(st.headers[st.current := st.headers[st.current] + " " + Trim(line)], st.current)
    else
      match HeaderField(line)
      case None => st
      case Some((name, value)) => HeaderState(st.headers[name := value], name)
  }

  /** The loop over a sequence of lines, first line first. */
  function Fold(rule: FoldingRule, st: HeaderState, lines: seq<string>): (r: HeaderState)
    requires Valid(st)
    ensures Valid(r)
    ensures st.headers.Keys <= r.headers.Keys
    decreases |lines|
  {
    if lines == [] then st else Fold(rule, Step(rule, st, lines[0]), lines[1..])
  }

  /** Every header name is lower-cased and trimmed, so a lookup by a
      lower-case name finds it. */
  predicate NamesLower(headers: map<string, string>) {
    forall n :: n in headers ==> Trimmed(n) && IsLower(n)
  }

  /** A line adds no header name other than the one it defines. */
  lemma StepNames(rule: FoldingRule, st: HeaderState, line: string)
    requires Valid(st) && NamesLower(st.headers)
    ensures NamesLower(Step(rule, st, line).headers)
  {
    var r := Step(rule, st, line);
    if IsContinuation(rule, line) && st.current != [] {
      assert r.headers.Keys == st.headers.Keys;
    } else if HeaderField(line).Some? {
      var f := HeaderField(line).value;
      assert r.headers == st.headers[f.0 := f.1];
    }
  }

  lemma {:induction false} FoldNames(rule: FoldingRule, st: HeaderState, lines: seq<string>)
    requires Valid(st) && NamesLower(st.headers)
    ensures NamesLower(Fold(rule, st, lines).headers)
    decreases |lines|
  {
    if lines != [] {
      StepNames(rule, st, lines[0]);
      FoldNames(rule, Step(rule, st, lines[0]), lines[1..]);
    }
  }

  /** The headers of a MIME part's header section. */
  function MimeHeaders(section: string): (headers: map<string, string>)
    ensures NamesLower(headers)
  {
    FoldNames(AnyWhitespace, Initial, SplitLines(section));
    Fold(AnyWhitespace, Initial, SplitLines(section)).headers
  }

  /** `parseMimeHeaders(headerSection)`. */
  method ParseMimeHeaders(section: string) returns (headers: map<string, string>)
    ensures headers == MimeHeaders(section)
  {
    var lines := SplitLines(section);
    headers := map[];
    var current := "";
    assert lines[0..|lines|] == lines;
    for i := 0 to |lines|
      invariant Valid(HeaderState(headers, current))
      invariant Fold(AnyWhitespace, HeaderState(headers, current), lines[i..|lines|]) == Fold(AnyWhitespace, Initial, lines)
    {
      var line := lines[i];
      ghost var st := HeaderState(headers, current);
      FoldSliceStep(AnyWhitespace, st, lines, i, |lines|);
      if line != [] && IsSpace(line[0]) && current != [] {
        ContinuationStep(AnyWhitespace, st, line);
        headers := headers[current := headers[current] + " " + Trim(line)];
      } else {
        var field := HeaderField(line);
        if field.Some? {
          current := field.value.0;
          headers := headers[current := field.value.1];
        }
      }
    }
  }

  /** The first step of a fold. */
  lemma FoldFirst(rule: FoldingRule, st: HeaderState, lines: seq<string>)
    requires Valid(st) && lines != []
    ensures Fold(rule, st, lines) == Fold(rule, Step(rule, st, lines[0]), lines[1..])
  {
  }

  /** One step of a fold over a slice of lines. */
  lemma FoldSliceStep(rule: FoldingRule, st: HeaderState, lines: seq<string>, i: nat, n: nat)
    requires Valid(st) && i < n <= |lines|
    ensures Fold(rule, st, lines[i..n]) == Fold(rule, Step(rule, st, lines[i]), lines[i + 1..n])
  {
    FoldFirst(rule, st, lines[i..n]);
    assert lines[i..n][1..] == lines[i + 1..n];
  }

  /** A continuation line appends its trimmed text to the current header. */
  lemma ContinuationStep(rule: FoldingRule, st: HeaderState, line: string)
    requires Valid(st) && IsContinuation(rule, line) && st.current != []
    ensures Step(rule, st, line)
            == HeaderState(st.headers[st.current := st.headers[st.current] + " " + Trim(line)], st.current)
  {
  }

  /** While the current header is another one, lines that do not define
      `n` leave its value alone, continuation lines included. */
  lemma {:induction false} FoldKeeps(rule: FoldingRule, st: HeaderState, lines: seq<string>, n: string)
    requires Valid(st) && n in st.headers && st.current != n
    requires forall j :: 0 <= j < |lines| ==> HeaderField(lines[j]).None? || HeaderField(lines[j]).value.0 != n
    ensures n in Fold(rule, st, lines).headers && Fold(rule, st, lines).headers[n] == st.headers[n]
    decreases |lines|
  {
    if lines != [] {
      var st' := Step(rule, st, lines[0]);
      assert st'.current != n;
      assert st'.headers[n] == st.headers[n];
      FoldKeeps(rule, st', lines[1..], n);
    }
  }

  /** A fold over two runs of lines is the fold over the second, started
      from the fold over the first. */
  lemma {:induction false} FoldAppend(rule: FoldingRule, st: HeaderState, a: seq<string>, b: seq<string>)
    requires Valid(st)
    ensures Fold(rule, st, a + b) == Fold(rule, Fold(rule, st, a), b)
    decreases |a|
  {
    if a != [] {
      assert (a + b)[0] == a[0] && (a + b)[1..] == a[1..] + b;
      FoldAppend(rule, Step(rule, st, a[0]), a[1..], b);
    } else {
      assert a + b == b;
    }
  }

  /** Last wins: a header line, its continuation lines, then any lines
      that start with a header line of another name and never redefine `n`:
      `n` has the value of its last definition with its continuations
      appended, whatever folded headers follow. */
  lemma LastWins(rule: FoldingRule, st: HeaderState, line: string, conts: seq<string>, rest: seq<string>, n: string, v: string)
    requires Valid(st)
    requires !IsContinuation(rule, line) && HeaderField(line) == Some((n, v)) && n != []
    requires forall j :: 0 <= j < |conts| ==> IsContinuation(rule, conts[j])
    requires rest == [] || (!IsContinuation(rule, rest[0]) && HeaderField(rest[0]).Some?)
    requires forall j :: 0 <= j < |rest| ==> HeaderField(rest[j]).None? || HeaderField(rest[j]).value.0 != n
    ensures n in Fold(rule, st, [line] + conts + rest).headers
    ensures Fold(rule, st, [line] + conts + rest).headers[n] == v + Unfolded(conts)
  {
    var first := Step(rule, st, line);
    FoldFirst(rule, st, [line] + conts);
    assert ([line] + conts)[0] == line && ([line] + conts)[1..] == conts;
    FoldContinuations(rule, first, conts);
    var mid := Fold(rule, st, [line] + conts);
    assert mid.current == n && mid.headers[n] == v + Unfolded(conts);
    FoldAppend(rule, st, [line] + conts, rest);
    if rest != [] {
      var next := Step(rule, mid, rest[0]);
      assert next.current != n && next.headers[n] == mid.headers[n];
      FoldFirst(rule, mid, rest);
      FoldKeeps(rule, next, rest[1..], n);
    }
  }

  /** What a run of continuation lines appends: each one trimmed, after a space. */
  function Unfolded(conts: seq<string>): string {
    if conts == [] then [] else " " + Trim(conts[0]) + Unfolded(conts[1..])
  }

  /** Continuation lines extend the current header and nothing else. */
  lemma {:induction false} FoldContinuations(rule: FoldingRule, st: HeaderState, conts: seq<string>)
    requires Valid(st) && st.current != []
    requires forall j :: 0 <= j < |conts| ==> IsContinuation(rule, conts[j])
    ensures Fold(rule, st, conts)
            == HeaderState(st.headers[st.current := st.headers[st.current] + Unfolded(conts)], st.current)
    decreases |conts|
  {
    var name, value := st.current, st.headers[st.current];
    if conts != [] {
      var line := " " + Trim(conts[0]);
      var rest := Unfolded(conts[1..]);
      var st' := HeaderState(st.headers[name := value + line], name);
      Assoc(value, " ", Trim(conts[0]));
      assert Step(rule, st, conts[0]) == st';
      FoldFirst(rule, st, conts);
      FoldContinuations(rule, st', conts[1..]);
      assert Unfolded(conts) == line + rest;
      Assoc(value, line, rest);
      UpdateTwice(st.headers, name, value + line, value + Unfolded(conts));
    } else {
      assert value + Unfolded(conts) == value;
      assert st.headers[name := value] == st.headers;
    }
  }

  lemma UpdateTwice(m: map<string, string>, k: string, a: string, b: string)
    ensures m[k := a][k := b] == m[k := b]
  {
  }

  /** Unfolding: a header line followed by continuation lines has the
      value of the header line with every continuation appended. */
  lemma Unfolding(rule: FoldingRule, st: HeaderState, line: string, conts: seq<string>, n: string, v: string)
    requires Valid(st)
    requires !IsContinuation(rule, line) && HeaderField(line) == Some((n, v)) && n != []
    requires forall j :: 0 <= j < |conts| ==> IsContinuation(rule, conts[j])
    ensures Fold(rule, st, [line] + conts).headers[n] == v + Unfolded(conts)
  {
    var lines := [line] + conts;
    assert lines[0] == line && lines[1..] == conts;
    FoldContinuations(rule, Step(rule, st, line), conts);
  }

  /** A continuation line before any header is not appended anywhere: it
      is read as an ordinary line, and ignored unless it has a colon past
      its first character. The two folding rules agree on it. */
  lemma OrphanContinuation(st: HeaderState, line: string)
    requires Valid(st) && st.current == []
    ensures Step(SpaceOrTab, st, line) == Step(AnyWhitespace, st, line)
    ensures HeaderField(line).None? ==> Step(AnyWhitespace, st, line) == st
  {
  }

  /** The two rules part ways on a line that starts with whitespace other
      than a space or a tab, such as a form feed: `parseMimeHeaders`
      appends it to the current header, `parseEmlManually` reads it as a
      header line of its own. */
  lemma RulesDiffer(st: HeaderState, line: string)
    requires Valid(st) && st.current != []
    requires line != [] && IsSpace(line[0]) && line[0] != ' ' && line[0] != '\t'
    ensures Step(AnyWhitespace, st, line).headers[st.current] == st.headers[st.current] + " " + Trim(line)
    ensures HeaderField(line).None? ==> Step(SpaceOrTab, st, line) == st
    ensures HeaderField(line).Some? ==>
              var (n, v) := HeaderField(line).value;
              Step(SpaceOrTab, st, line) == HeaderState(st.headers[n := v], n)
  {
  }
}
