/** The JavaScript string operations the parser relies on: the whitespace
    class shared by `\s` and `trim()`, ASCII case folding, `indexOf`,
    `split`, `join` and global replacement of a literal pattern. */
module Text {
  import opened Wrappers

  /** ECMAScript WhiteSpace and LineTerminator code points: the set matched
      by `\s` and removed by `String.prototype.trim`. */
  predicate IsSpace(c: char) {
    || c == '\t' || c == '\n' || c == '\U{000B}' || c == '\U{000C}' || c == '\r'
    || c == ' ' || c == '\U{00A0}' || c == '\U{1680}'
    || ('\U{2000}' <= c <= '\U{200A}')
    || c == '\U{2028}' || c == '\U{2029}' || c == '\U{202F}' || c == '\U{205F}'
    || c == '\U{3000}' || c == '\U{FEFF}'
  }

  predicate AllSpace(s: string) {
    forall i :: 0 <= i < |s| ==> IsSpace(s[i])
  }

  /** No whitespace at either end. */
  predicate Trimmed(s: string) {
    s == [] || (!IsSpace(s[0]) && !IsSpace(s[|s| - 1]))
  }

  /** Length of the maximal whitespace prefix. */
  function LeadingSpaces(s: string): (n: nat)
    ensures n <= |s|
    ensures forall i :: 0 <= i < n ==> IsSpace(s[i])
    ensures n < |s| ==> !IsSpace(s[n])
  {
    if s == [] || !IsSpace(s[0]) then 0 else 1 + LeadingSpaces(s[1..])
  }

  /** Length of the maximal whitespace suffix. */
  function TrailingSpaces(s: string): (n: nat)
    ensures n <= |s|
    ensures forall i :: |s| - n <= i < |s| ==> IsSpace(s[i])
    ensures n < |s| ==> !IsSpace(s[|s| - 1 - n])
  {
    if s == [] || !IsSpace(s[|s| - 1]) then 0 else 1 + TrailingSpaces(s[..|s| - 1])
  }

  /** `String.prototype.trim`. */
  function Trim(s: string): (r: string)
    ensures Trimmed(r)
    ensures r == [] <==> AllSpace(s)
    ensures LeadingSpaces(s) + |r| <= |s| && r == s[LeadingSpaces(s)..LeadingSpaces(s) + |r|]
    ensures AllSpace(s[LeadingSpaces(s) + |r|..])
    ensures Trimmed(s) ==> r == s
  {
    var l := LeadingSpaces(s);
    var e := |s| - TrailingSpaces(s[l..]);
    TrimFacts(s, l, e);
    s[l..e]
  }

  lemma TrimFacts(s: string, l: nat, e: nat)
    requires l == LeadingSpaces(s) && e == |s| - TrailingSpaces(s[l..])
    ensures l <= e <= |s|
    ensures Trimmed(s[l..e])
    ensures s[l..e] == [] <==> AllSpace(s)
    ensures AllSpace(s[e..])
    ensures Trimmed(s) ==> l == 0 && e == |s|
  {
    TrimSuffix(s, l, e);
    TrimEnds(s, l, e);
    if l < |s| {
      assert !IsSpace(s[l]);
    }
    if Trimmed(s) && s != [] {
      assert !IsSpace(s[0]);
      assert l == 0;
      assert !IsSpace(s[l..][|s| - 1]);
    }
  }

  lemma TrimSuffix(s: string, l: nat, e: nat)
    requires l == LeadingSpaces(s) && e == |s| - TrailingSpaces(s[l..])
    ensures l <= e <= |s|
    ensures AllSpace(s[e..])
  {
    var t := s[l..];
    assert s[e..] == t[|t| - TrailingSpaces(t)..];
  }

  lemma TrimEnds(s: string, l: nat, e: nat)
    requires l == LeadingSpaces(s) && e == |s| - TrailingSpaces(s[l..])
    requires l <= e <= |s|
    ensures Trimmed(s[l..e])
    ensures l < |s| ==> l < e
  {
    if l < |s| {
      var t := s[l..];
      assert t[0] == s[l];
      TrailingShort(t);
      assert s[e - 1] == t[|t| - 1 - TrailingSpaces(t)];
      TrimmedSlice(s, l, e);
    }
  }

  /** A slice between two non-spaces is trimmed. */
  lemma TrimmedSlice(s: string, l: nat, e: nat)
    requires l < e <= |s| && !IsSpace(s[l]) && !IsSpace(s[e - 1])
    ensures Trimmed(s[l..e])
  {
    EndsOfSlice(s, l, e);
  }

  /** Text that starts with a non-space has a non-space before its
      trailing whitespace. */
  lemma TrailingShort(t: string)
    requires t != [] && !IsSpace(t[0])
    ensures TrailingSpaces(t) < |t|
  {
  }

  lemma EndsOfSlice(s: string, l: nat, e: nat)
    requires l < e <= |s|
    ensures s[l..e][0] == s[l] && s[l..e][e - l - 1] == s[e - 1]
  {
  }

  lemma TrimIdempotent(s: string)
    ensures Trim(Trim(s)) == Trim(s)
  {
  }

  function ToLowerChar(c: char): char {
    if 'A' <= c <= 'Z' then (c as int + 32) as char else c
  }

  /** `toLowerCase`, restricted to ASCII letters. */
  function ToLower(s: string): (r: string)
    ensures |r| == |s| && IsLower(r)
    ensures forall i :: 0 <= i < |s| && !('A' <= s[i] <= 'Z') ==> r[i] == s[i]
    ensures forall i :: 0 <= i < |s| && 'A' <= s[i] <= 'Z' ==> r[i] as int == s[i] as int + 32
  {
    seq(|s|, i requires 0 <= i < |s| => ToLowerChar(s[i]))
  }

  /** No ASCII upper-case letter. */
  predicate IsLower(s: string) {
    forall k :: 0 <= k < |s| ==> ToLowerChar(s[k]) == s[k]
  }

  /** Case-insensitive (ASCII) match of the lower-case pattern `pat` at index `i`. */
  predicate MatchesAtCI(s: string, i: nat, pat: string) {
    i + |pat| <= |s| && forall k :: 0 <= k < |pat| ==> ToLowerChar(s[i + k]) == pat[k]
  }

  predicate OccursAt(s: string, pat: string, i: nat) {
    i + |pat| <= |s| && s[i..i + |pat|] == pat
  }

  /** `s.indexOf(c, from)`, as an option. */
  function IndexOfChar(s: string, c: char, from: nat): (r: Option<nat>)
    ensures r.Some? ==> from <= r.value < |s| && s[r.value] == c
    ensures forall j :: from <= j < |s| && (r.None? || j < r.value) ==> s[j] != c
    decreases |s| - from
  {
    if from >= |s| then None
    else if s[from] == c then Some(from)
    else IndexOfChar(s, c, from + 1)
  }

  /** The first `c` at or after `from` is at `j` when `s[j]` is one and no
      character before it is. */
  lemma FirstIndex(s: string, c: char, from: nat, j: nat)
    requires from <= j < |s| && s[j] == c
    requires forall i :: from <= i < j ==> s[i] != c
    ensures IndexOfChar(s, c, from) == Some(j)
  {
  }

  /** First occurrence of `pat` at or after `from`. */
  function IndexOfFrom(s: string, pat: string, from: nat): (r: Option<nat>)
    ensures r.Some? ==> from <= r.value && OccursAt(s, pat, r.value)
    ensures forall j: nat :: from <= j && (r.None? || j < r.value) ==> !OccursAt(s, pat, j)
    decreases |s| - from
  {
    if from + |pat| > |s| then None
    else if OccursAt(s, pat, from) then Some(from)
    else IndexOfFrom(s, pat, from + 1)
  }

  /** `s.indexOf(pat)`, as an option. */
  function IndexOf(s: string, pat: string): (r: Option<nat>)
    ensures r.Some? ==> OccursAt(s, pat, r.value)
    ensures forall j: nat :: (r.None? || j < r.value) ==> !OccursAt(s, pat, j)
  {
    IndexOfFrom(s, pat, 0)
  }

  /** `s.includes(pat)`. */
  predicate Contains(s: string, pat: string) {
    IndexOf(s, pat).Some?
  }

  /** `parts.join(sep)`. */
  function Join(parts: seq<string>, sep: string): string {
    if parts == [] then []
    else if |parts| == 1 then parts[0]
    else parts[0] + sep + Join(parts[1..], sep)
  }

  /** `s.split(d)` for a non-empty literal delimiter: the pieces between
      leftmost, non-overlapping occurrences of `d`. */
  function SplitOn(s: string, d: string): (parts: seq<string>)
    requires d != []
    ensures |parts| >= 1
    decreases |s|
  {
    match IndexOf(s, d)
    case None => [s]
    case Some(k) => [s[..k]] + SplitOn(s[k + |d|..], d)
  }

  /** Joining the pieces of a split with the delimiter restores the input. */
  lemma {:induction false} JoinSplitOn(s: string, d: string)
    requires d != []
    ensures Join(SplitOn(s, d), d) == s
    decreases |s|
  {
    match IndexOf(s, d)
    case None =>
    case Some(k) =>
      var rest := s[k + |d|..];
      var parts := SplitOn(rest, d);
      JoinSplitOn(rest, d);
      JoinCons(s[..k], parts, d);
      CutAt(s, d, k);
  }

  lemma JoinCons(a: string, parts: seq<string>, sep: string)
    requires parts != []
    ensures Join([a] + parts, sep) == a + sep + Join(parts, sep)
  {
    assert ([a] + parts)[1..] == parts;
  }

  /** A text is the piece before an occurrence, the occurrence, and the
      rest. */
  lemma CutAt(s: string, d: string, k: nat)
    requires OccursAt(s, d, k)
    ensures s == s[..k] + d + s[k + |d|..]
  {
    assert s[k..k + |d|] == d;
  }

  /** `d` first occurs in `p + d` exactly where it was appended: `p` can be
      followed by the delimiter without creating an earlier occurrence. */
  predicate SeparatedBy(p: string, d: string) {
    IndexOf(p + d, d) == Some(|p|)
  }

  lemma FirstOccurrenceExtends(p: string, d: string, rest: string)
    requires SeparatedBy(p, d)
    ensures IndexOf(p + d + rest, d) == Some(|p|)
  {
    var s := p + d + rest;
    assert OccursAt(s, d, |p|) by {
      assert s[|p|..|p| + |d|] == d;
    }
    forall j: nat | j < |p|
      ensures !OccursAt(s, d, j)
    {
      assert !OccursAt(p + d, d, j);
      assert j + |d| <= |p + d|;
      assert s[j..j + |d|] == (p + d)[j..j + |d|];
    }
    assert IndexOfFrom(s, d, 0).Some?;
  }

  /** Splitting a joined list of pieces, none of which contains or runs
      into the delimiter, gives back the pieces. */
  lemma {:induction false} SplitOnJoin(parts: seq<string>, d: string)
    requires d != [] && parts != []
    requires forall i :: 0 <= i < |parts| - 1 ==> SeparatedBy(parts[i], d)
    requires IndexOf(parts[|parts| - 1], d).None?
    ensures SplitOn(Join(parts, d), d) == parts
    decreases |parts|
  {
    if |parts| > 1 {
      var rest := Join(parts[1..], d);
      assert Join(parts, d) == parts[0] + d + rest;
      FirstOccurrenceExtends(parts[0], d, rest);
      assert (parts[0] + d + rest)[|parts[0]| + |d|..] == rest;
      assert (parts[0] + d + rest)[..|parts[0]|] == parts[0];
      SplitOnJoin(parts[1..], d);
    }
  }

  function DropCR(line: string): string {
    if line != [] && line[|line| - 1] == '\r' then line[..|line| - 1] else line
  }

  /** `s.split(/\r?\n/)`: lines without their terminators. */
  function SplitLines(s: string): (lines: seq<string>)
    ensures |lines| >= 1
    ensures forall i :: 0 <= i < |lines| ==> '\n' !in lines[i]
    decreases |s|
  {
    match IndexOfChar(s, '\n', 0)
    case None => [s]
    case Some(k) => [DropCR(s[..k])] + SplitLines(s[k + 1..])
  }

  /** Without carriage returns, joining the lines with `\n` restores the text. */
  lemma {:induction false} JoinSplitLines(s: string)
    requires '\r' !in s
    ensures Join(SplitLines(s), "\n") == s
    decreases |s|
  {
    match IndexOfChar(s, '\n', 0)
    case None =>
    case Some(k) =>
      var rest := s[k + 1..];
      assert '\r' !in s[..k];
      assert DropCR(s[..k]) == s[..k];
      JoinSplitLines(rest);
      assert s == s[..k] + "\n" + rest;
  }

  /** A line without terminators, followed by `\n`, splits off as one line. */
  lemma SplitLinesCons(a: string, b: string)
    requires '\n' !in a && '\r' !in a
    ensures SplitLines(a + "\n" + b) == [a] + SplitLines(b)
  {
    var s := a + "\n" + b;
    assert IndexOfChar(s, '\n', 0) == Some(|a|) by {
      assert s[|a|] == '\n';
      forall j | 0 <= j < |a| ensures s[j] != '\n' {
        assert s[j] == a[j];
      }
    }
    assert s[..|a|] == a;
    assert s[|a| + 1..] == b;
  }

  /** Concatenation regrouped, for proofs where the solver does not find
      the grouping by itself. */
  lemma Assoc(a: string, b: string, c: string)
    ensures (a + b) + c == a + (b + c)
  {
  }

  /** Each line followed by a line feed. */
  function Unlines(lines: seq<string>): string
    decreases |lines|
  {
    if lines == [] then [] else Unlines(lines[..|lines| - 1]) + lines[|lines| - 1] + "\n"
  }

  lemma UnlinesSnoc(lines: seq<string>, k: nat)
    requires k < |lines|
    ensures Unlines(lines[..k + 1]) == Unlines(lines[..k]) + lines[k] + "\n"
  {
    assert lines[..k + 1][..k] == lines[..k];
  }

  /** Appending a line and its terminator extends the lines by one. */
  lemma AppendLine(m: string, lines: seq<string>, k: nat)
    requires k < |lines| && m == Unlines(lines[..k])
    ensures m + (lines[k] + "\n") == Unlines(lines[..k + 1])
  {
    UnlinesSnoc(lines, k);
    Assoc(m, lines[k], "\n");
  }

  /** Appending a line and two terminators adds the line and an empty one. */
  lemma AppendLineAndBlank(m: string, lines: seq<string>, k: nat)
    requires k + 1 < |lines| && lines[k + 1] == [] && m == Unlines(lines[..k])
    ensures m + (lines[k] + "\n\n") == Unlines(lines[..k + 2])
  {
    AppendLine(m, lines, k);
    var m1 := m + (lines[k] + "\n");
    UnlinesSnoc(lines, k + 1);
    assert Unlines(lines[..k + 2]) == m1 + "\n";
    Assoc(m, lines[k] + "\n", "\n");
    assert lines[k] + "\n" + "\n" == lines[k] + "\n\n";
  }

  /** Terminated lines, followed by any text, split back into those lines
      and the lines of the text. */
  lemma {:induction false} SplitLinesUnlines(lines: seq<string>, rest: string)
    requires forall i :: 0 <= i < |lines| ==> '\n' !in lines[i] && '\r' !in lines[i]
    ensures SplitLines(Unlines(lines) + rest) == lines + SplitLines(rest)
    decreases |lines|
  {
    if lines == [] {
      assert Unlines(lines) + rest == rest;
    } else {
      var init := lines[..|lines| - 1];
      var last := lines[|lines| - 1];
      var more := last + "\n" + rest;
      UnlinesLast(lines, rest);
      SplitLinesUnlines(init, more);
      SplitLinesCons(last, rest);
      assert lines == init + [last];
      LinesAssoc(init, [last], SplitLines(rest));
    }
  }

  lemma LinesAssoc(a: seq<string>, b: seq<string>, c: seq<string>)
    ensures (a + b) + c == a + (b + c)
  {
  }

  /** The last line moves from the terminated lines to the text after them. */
  lemma UnlinesLast(lines: seq<string>, rest: string)
    requires lines != []
    ensures Unlines(lines) + rest == Unlines(lines[..|lines| - 1]) + (lines[|lines| - 1] + "\n" + rest)
  {
    var init, last := Unlines(lines[..|lines| - 1]), lines[|lines| - 1];
    Assoc(init + last, "\n", rest);
    Assoc(init, last, "\n" + rest);
    Assoc(last, "\n", rest);
  }

  /** Global replacement of a literal pattern (leftmost, non-overlapping). */
  function ReplaceAll(s: string, pat: string, rep: string): (r: string)
    requires pat != []
    ensures pat[0] !in s ==> r == s
    decreases |s|
  {
    if s == [] then []
    else if OccursAt(s, pat, 0) then rep + ReplaceAll(s[|pat|..], pat, rep)
    else [s[0]] + ReplaceAll(s[1..], pat, rep)
  }

  /** A prefix that cannot start an occurrence passes through unchanged. */
  lemma {:induction false} ReplaceAllSkips(x: string, rest: string, pat: string, rep: string)
    requires pat != [] && pat[0] !in x
    ensures ReplaceAll(x + rest, pat, rep) == x + ReplaceAll(rest, pat, rep)
    decreases |x|
  {
    if x != [] {
      var s := x + rest;
      assert s[0] == x[0] && x[0] in x;
      assert !OccursAt(s, pat, 0);
      assert s[1..] == x[1..] + rest;
      assert ReplaceAll(s, pat, rep) == [x[0]] + ReplaceAll(s[1..], pat, rep);
      ReplaceAllSkips(x[1..], rest, pat, rep);
      assert x == [x[0]] + x[1..];
    } else {
      assert x + rest == rest;
    }
  }

  /** `s.replace(/\s+/g, ' ')`. */
  function CollapseSpaces(s: string): (r: string)
    ensures forall i :: 0 <= i < |r| && IsSpace(r[i]) ==> r[i] == ' '
    ensures forall i :: 0 <= i < |r| - 1 ==> !(IsSpace(r[i]) && IsSpace(r[i + 1]))
    ensures r != [] <==> s != []
    ensures r != [] ==> (IsSpace(r[0]) <==> IsSpace(s[0]))
    ensures (forall i :: 0 <= i < |s| ==> !IsSpace(s[i])) ==> r == s
    decreases |s|
  {
    if s == [] then []
    else if IsSpace(s[0]) then " " + CollapseSpaces(s[LeadingSpaces(s)..])
    else [s[0]] + CollapseSpaces(s[1..])
  }

  /** The characters of a text that are not whitespace, in order. */
  function NonSpace(s: string): string
    decreases |s|
  {
    if s == [] then [] else (if IsSpace(s[0]) then [] else [s[0]]) + NonSpace(s[1..])
  }

  lemma {:induction false} NonSpaceAfterSpaces(s: string, t: string)
    requires AllSpace(s)
    ensures NonSpace(s + t) == NonSpace(t)
    decreases |s|
  {
    if s != [] {
      assert (s + t)[0] == s[0] && (s + t)[1..] == s[1..] + t;
      NonSpaceAfterSpaces(s[1..], t);
    } else {
      assert s + t == t;
    }
  }

  /** Collapsing whitespace keeps every other character, in order. */
  lemma {:induction false} CollapseSpacesKeepsText(s: string)
    ensures NonSpace(CollapseSpaces(s)) == NonSpace(s)
    decreases |s|
  {
    if s != [] {
      if IsSpace(s[0]) {
        var n := LeadingSpaces(s);
        var rest := CollapseSpaces(s[n..]);
        CollapseSpacesKeepsText(s[n..]);
        assert (" " + rest)[1..] == rest;
        assert s == s[..n] + s[n..];
        NonSpaceAfterSpaces(s[..n], s[n..]);
      } else {
        CollapseSpacesKeepsText(s[1..]);
        assert ([s[0]] + CollapseSpaces(s[1..]))[1..] == CollapseSpaces(s[1..]);
      }
    }
  }

  /** A line ended by `\r\n` splits off as one line: `split(/\r?\n/)`
      drops the carriage return with the line feed. */
  lemma SplitLinesCRLF(a: string, b: string)
    requires '\n' !in a && '\r' !in a
    ensures SplitLines(a + "\r\n" + b) == [a] + SplitLines(b)
  {
    var s := a + "\r\n" + b;
    assert IndexOfChar(s, '\n', 0) == Some(|a| + 1) by {
      assert s[|a| + 1] == '\n';
      forall j | 0 <= j < |a| + 1 ensures s[j] != '\n' {
        if j < |a| {
          assert s[j] == a[j];
        }
      }
    }
    assert s[..|a| + 1] == a + "\r";
    assert DropCR(a + "\r") == a;
    assert s[|a| + 2..] == b;
  }

  /** Each line followed by `\r\n`. */
  function CrlfLines(lines: seq<string>): string
    decreases |lines|
  {
    if lines == [] then [] else CrlfLines(lines[..|lines| - 1]) + lines[|lines| - 1] + "\r\n"
  }

  /** CRLF-terminated lines, followed by any text, split back into those
      lines and the lines of the text. */
  lemma {:induction false} SplitLinesCrlfLines(lines: seq<string>, rest: string)
    requires forall i :: 0 <= i < |lines| ==> '\n' !in lines[i] && '\r' !in lines[i]
    ensures SplitLines(CrlfLines(lines) + rest) == lines + SplitLines(rest)
    decreases |lines|
  {
    if lines == [] {
      assert CrlfLines(lines) + rest == rest;
    } else {
      var init := lines[..|lines| - 1];
      var last := lines[|lines| - 1];
      var more := last + "\r\n" + rest;
      CrlfLast(lines, rest);
      SplitLinesCrlfLines(init, more);
      SplitLinesCRLF(last, rest);
      assert lines == init + [last];
      LinesAssoc(init, [last], SplitLines(rest));
    }
  }

  lemma CrlfLast(lines: seq<string>, rest: string)
    requires lines != []
    ensures CrlfLines(lines) + rest == CrlfLines(lines[..|lines| - 1]) + (lines[|lines| - 1] + "\r\n" + rest)
  {
    var init, last := CrlfLines(lines[..|lines| - 1]), lines[|lines| - 1];
    Assoc(init + last, "\r\n", rest);
    Assoc(init, last, "\r\n" + rest);
    Assoc(last, "\r\n", rest);
  }
}
