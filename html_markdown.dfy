/** The stated passes of `htmlToMarkdown`: the table conversion, the
    stripping of the remaining tags, the entity decoding and the whitespace
    clean-up. The passes in between (headings, emphasis, links, lists and
    the rest) come from the environment. */
module HtmlMarkdown {
  import opened Wrappers
  import opened Text
  import opened Collaborators

  // Case-insensitive element matching.

  /** A tag pattern: the lower-case characters allowed at each position,
      so the pattern `<t[hd]` is `["<", "t", "hd"]`. */
  type Pattern = seq<string>

  function Literal(text: string): Pattern {
    seq(|text|, i requires 0 <= i < |text| => [text[i]])
  }

  predicate MatchesAt(s: string, p: nat, pat: Pattern) {
    p + |pat| <= |s| && forall k :: 0 <= k < |pat| ==> ToLowerChar(s[p + k]) in pat[k]
  }

  /** The first position at or after `from` where `pat` matches. */
  function FindFrom(s: string, pat: Pattern, from: nat): (r: Option<nat>)
    ensures r.Some? ==> from <= r.value && MatchesAt(s, r.value, pat)
    ensures forall j: nat :: from <= j && (r.None? || j < r.value) ==> !MatchesAt(s, j, pat)
    decreases |s| - from
  {
    if from + |pat| > |s| then None
    else if MatchesAt(s, from, pat) then Some(from)
    else FindFrom(s, pat, from + 1)
  }

  /** Where an element match lies: its content and its end. */
  datatype Span = Span(contentStart: nat, contentEnd: nat, end: nat)

  /** The match of `<open>[^>]*>([\s\S]*?)<close>` (flag `i`) at `p`: the
      opening pattern, everything up to the first `>`, then the content up to
      the first closing pattern. `[^>]*` cannot pass a `>`, so the opening tag
      ends at the first one, and the lazy content ends at the first closing
      tag. */
  function ElementAt(s: string, p: nat, open: Pattern, close: Pattern): (m: Option<Span>)
    requires close != []
    ensures m.Some? ==> p + |open| < m.value.contentStart <= m.value.contentEnd < m.value.end <= |s|
    ensures m.Some? ==> MatchesAt(s, p, open) && s[m.value.contentStart - 1] == '>'
                        && m.value.end == m.value.contentEnd + |close|
                        && MatchesAt(s, m.value.contentEnd, close)
    ensures !MatchesAt(s, p, open) ==> m.None?
  {
    if !MatchesAt(s, p, open) then None
    else
      match IndexOfChar(s, '>', p + |open|)
      case None => None
      case Some(g) =>
        match FindFrom(s, close, g + 1)
        case None => None
        case Some(c) => Some(Span(g + 1, c, c + |close|))
  }

  /** The match is the shortest one: no `>` before the end of the opening
      tag, and no closing pattern inside the content. */
  lemma ElementAtFirst(s: string, p: nat, open: Pattern, close: Pattern)
    requires close != [] && ElementAt(s, p, open, close).Some?
    ensures var m := ElementAt(s, p, open, close).value;
            forall j :: p + |open| <= j < m.contentStart - 1 ==> s[j] != '>'
    ensures var m := ElementAt(s, p, open, close).value;
            forall j: nat :: m.contentStart <= j < m.contentEnd ==> !MatchesAt(s, j, close)
  {
  }

  /** `s.match(/<open>[^>]*>[\s\S]*?<close>/gi) || []` from position `from`:
      the whole text of every match, left to right, each search resuming
      where the previous match ended. */
  function MatchAll(s: string, open: Pattern, close: Pattern, from: nat): seq<string>
    requires close != []
    decreases |s| - from
  {
    if from >= |s| then []
    else
      match ElementAt(s, from, open, close)
      case Some(m) => [s[from..m.end]] + MatchAll(s, open, close, m.end)
      case None => MatchAll(s, open, close, from + 1)
  }

  /** Every match opens with `open` and ends with `close`. */
  lemma {:induction false} MatchAllEnclosed(s: string, open: Pattern, close: Pattern, from: nat)
    requires close != []
    ensures forall i :: 0 <= i < |MatchAll(s, open, close, from)| ==> Enclosed(MatchAll(s, open, close, from)[i], open, close)
    decreases |s| - from
  {
    if from < |s| {
      match ElementAt(s, from, open, close)
      case Some(m) =>
        MatchesAtSlice(s, from, m.end, from, open);
        MatchesAtSlice(s, from, m.end, m.contentEnd, close);
        MatchAllEnclosed(s, open, close, m.end);
      case None =>
        MatchAllEnclosed(s, open, close, from + 1);
    }
  }

  /** Text that starts with `open` and ends with `close`. */
  predicate Enclosed(t: string, open: Pattern, close: Pattern) {
    |close| <= |t| && MatchesAt(t, 0, open) && MatchesAt(t, |t| - |close|, close)
  }

  /** A match inside a slice is a match in the whole text. */
  lemma MatchesAtSlice(s: string, a: nat, b: nat, j: nat, pat: Pattern)
    requires a <= j && j + |pat| <= b <= |s|
    ensures MatchesAt(s[a..b], j - a, pat) == MatchesAt(s, j, pat)
  {
    forall k | j <= k < j + |pat| ensures s[a..b][k - a] == s[k] {
    }
  }

  // Tag stripping.

  /** No `<` is followed, anywhere later, by a `>`: nothing is left that
      `<[^>]*>` could match. */
  predicate NoTag(s: string) {
    forall i, j :: 0 <= i < j < |s| && s[i] == '<' ==> s[j] != '>'
  }

  /** `s.replace(/<[^>]*>/g, '')`: each `<` up to the next `>` is removed;
      a `<` with no `>` after it is kept. */
  function StripTags(s: string): (r: string)
    ensures NoTag(r)
    ensures forall i :: 0 <= i < |r| ==> r[i] in s
    ensures '<' !in s ==> r == s
    decreases |s|
  {
    if s == [] then []
    else if s[0] == '<' then
      match IndexOfChar(s, '>', 1)
      case Some(g) => StripTags(s[g + 1..])
      case None =>
        var rest := StripTags(s[1..]);
        assert forall i :: 0 <= i < |rest| ==> rest[i] != '>';
        [s[0]] + rest
    else [s[0]] + StripTags(s[1..])
  }

  /** Text with nothing to strip is left as it is. */
  lemma {:induction false} StripTagsKeepsPlainText(s: string)
    requires NoTag(s)
    ensures StripTags(s) == s
    decreases |s|
  {
    if s != [] {
      if s[0] == '<' {
        assert IndexOfChar(s, '>', 1).None?;
      }
      assert NoTag(s[1..]) by {
        forall i, j | 0 <= i < j < |s[1..]| && s[1..][i] == '<' ensures s[1..][j] != '>' {
          assert s[1..][i] == s[i + 1] && s[1..][j] == s[j + 1];
        }
      }
      StripTagsKeepsPlainText(s[1..]);
    }
  }

  /** Text before the first `<` is kept. */
  lemma {:induction false} StripTagsSkip(a: string, b: string)
    requires '<' !in a
    ensures StripTags(a + b) == a + StripTags(b)
    decreases |a|
  {
    if a != [] {
      var s := a + b;
      assert s[0] == a[0] && a[0] in a;
      assert s[1..] == a[1..] + b;
      assert '<' !in a[1..];
      StripTagsHead(s);
      StripTagsSkip(a[1..], b);
      assert a == [a[0]] + a[1..];
      Assoc([a[0]], a[1..], StripTags(b));
    } else {
      assert a + b == b;
    }
  }

  /** A first character other than `<` is kept. */
  lemma StripTagsHead(s: string)
    requires s != [] && s[0] != '<'
    ensures StripTags(s) == [s[0]] + StripTags(s[1..])
  {
  }

  /** A tag is removed and the text around it kept. */
  lemma StripTagsTag(a: string, t: string, b: string)
    requires '<' !in a && '>' !in t
    ensures StripTags(a + ("<" + t + ">" + b)) == a + StripTags(b)
  {
    var x := "<" + t + ">" + b;
    assert x[0] == '<';
    assert IndexOfChar(x, '>', 1) == Some(|t| + 1) by {
      assert x[|t| + 1] == '>';
      forall j | 1 <= j < |t| + 1 ensures x[j] != '>' {
        assert x[j] == t[j - 1];
      }
    }
    assert x[|t| + 2..] == b;
    StripTagsSkip(a, x);
  }

  lemma StripTagsIdempotent(s: string)
    ensures StripTags(StripTags(s)) == StripTags(s)
  {
    StripTagsKeepsPlainText(StripTags(s));
  }

  // Tables.

  const TableOpen: Pattern := Literal("<table")
  const TableClose: Pattern := Literal("</table>")
  const RowOpen: Pattern := Literal("<tr")
  const RowClose: Pattern := Literal("</tr>")
  /** `<t[hd]` and `<\/t[hd]>`: a cell opened as `th` may close as `td`. */
  const CellOpen: Pattern := Literal("<t") + ["hd"]
  const CellClose: Pattern := Literal("</t") + ["hd"] + Literal(">")

  /** The text of one cell: its tags removed, whitespace runs made single
      spaces, trimmed. It always fits on one line. */
  function CellText(cell: string): (t: string)
    ensures Trimmed(t)
    ensures forall i :: 0 <= i < |t| ==> t[i] != '\n'
  {
    var c := CollapseSpaces(StripTags(cell));
    TrimNoNewline(c);
    Trim(c)
  }

  /** Text whose only whitespace is spaces has no line feed once trimmed. */
  lemma TrimNoNewline(c: string)
    requires forall i :: 0 <= i < |c| && IsSpace(c[i]) ==> c[i] == ' '
    ensures forall i :: 0 <= i < |Trim(c)| ==> Trim(c)[i] != '\n'
  {
    var t, a := Trim(c), LeadingSpaces(c);
    forall i | 0 <= i < |t| ensures t[i] != '\n' {
      assert t[i] == c[a + i];
    }
  }

  /** The cell texts of one row. */
  function RowCells(row: string): (cells: seq<string>)
    ensures forall i :: 0 <= i < |cells| ==> Trimmed(cells[i]) && '\n' !in cells[i]
  {
    var matches := MatchAll(row, CellOpen, CellClose, 0);
    seq(|matches|, i requires 0 <= i < |matches| => CellText(matches[i]))
  }

  function Dashes(n: nat): seq<string> {
    seq(n, _ => "---")
  }

  /** One Markdown table line: `| a | b |`. */
  function RowLine(cells: seq<string>): string {
    "| " + Join(cells, " | ") + " |\n"
  }

  /** The lines a row contributes: none when it has no cells; its cells,
      followed for the first row by a separator with one `---` per cell. */
  function RowLines(cells: seq<string>, first: bool): (r: string)
    ensures r == [] <==> cells == []
    ensures r != [] ==> r[0] == '|' && r[|r| - 1] == '\n'
  {
    if cells == [] then []
    else RowLine(cells) + (if first then RowLine(Dashes(|cells|)) else [])
  }

  /** The table lines of `rows`, the last row last. */
  function TableBody(rows: seq<string>): string
    decreases |rows|
  {
    if rows == [] then []
    else TableBody(rows[..|rows| - 1]) + RowLines(RowCells(rows[|rows| - 1]), |rows| == 1)
  }

  /** The rows of a table's content. */
  function TableRows(content: string): (rows: seq<string>)
    ensures forall i :: 0 <= i < |rows| ==> Enclosed(rows[i], RowOpen, RowClose)
  {
    MatchAllEnclosed(content, RowOpen, RowClose, 0);
    MatchAll(content, RowOpen, RowClose, 0)
  }

  /** The replacement for a whole `<table>` element. */
  function TableMarkdown(content: string): string {
    "\n\n" + TableBody(TableRows(content)) + "\n\n"
  }

  /** The `forEach` over the rows of a table, appending to the Markdown. */
  method BuildTable(rows: seq<string>) returns (table: string)
    ensures table == "\n\n" + TableBody(rows) + "\n\n"
  {
    table := "\n\n";
    assert TableBody(rows[..0]) == [];
    for index := 0 to |rows|
      invariant table == "\n\n" + TableBody(rows[..index])
    {
      var cells := RowCells(rows[index]);
      ghost var before := table;
      TableStep(rows, index);
      RowLinesAppended(before, cells, index == 0);
      if |cells| > 0 {
        table := table + RowLine(cells);
        if index == 0 {
          table := table + RowLine(Dashes(|cells|));
        }
      }
      Assoc("\n\n", TableBody(rows[..index]), RowLines(cells, index == 0));
    }
    assert rows[..|rows|] == rows;
    table := table + "\n\n";
  }

  /** Appending a row's line, and for the first row its separator, appends
      that row's lines. */
  lemma RowLinesAppended(before: string, cells: seq<string>, first: bool)
    ensures cells == [] ==> before + RowLines(cells, first) == before
    ensures cells != [] && first ==> before + RowLine(cells) + RowLine(Dashes(|cells|)) == before + RowLines(cells, first)
    ensures cells != [] && !first ==> before + RowLine(cells) == before + RowLines(cells, first)
  {
    if cells != [] && first {
      Assoc(before, RowLine(cells), RowLine(Dashes(|cells|)));
    }
  }

  /** One more row appends that row's lines. */
  lemma TableStep(rows: seq<string>, index: nat)
    requires index < |rows|
    ensures TableBody(rows[..index + 1]) == TableBody(rows[..index]) + RowLines(RowCells(rows[index]), index == 0)
  {
    assert rows[..index + 1][..index] == rows[..index];
  }

  lemma TailOfInit(s: seq<string>)
    requires |s| > 1
    ensures s[1..] == s[..|s| - 1][1..] + [s[|s| - 1]]
  {
  }

  /** The rows after the first: their lines, first row first, no separator. */
  function PlainRows(rows: seq<string>): string
    decreases |rows|
  {
    if rows == [] then [] else RowLines(RowCells(rows[0]), false) + PlainRows(rows[1..])
  }

  lemma {:induction false} PlainRowsSnoc(rows: seq<string>, row: string)
    ensures PlainRows(rows + [row]) == PlainRows(rows) + RowLines(RowCells(row), false)
    decreases |rows|
  {
    if rows == [] {
      assert [row][1..] == [];
    } else {
      var all := rows + [row];
      assert all[0] == rows[0] && all[1..] == rows[1..] + [row];
      PlainRowsSnoc(rows[1..], row);
      var a, b, c := RowLines(RowCells(rows[0]), false), PlainRows(rows[1..]), RowLines(RowCells(row), false);
      assert PlainRows(all) == a + (b + c);
      assert PlainRows(rows) == a + b;
      Assoc(a, b, c);
    }
  }

  /** The separator follows the first row only, and only when that row has
      cells; every later row contributes its own line and nothing else. */
  lemma {:induction false} TableBodyShape(rows: seq<string>)
    requires rows != []
    ensures TableBody(rows) == RowLines(RowCells(rows[0]), true) + PlainRows(rows[1..])
    decreases |rows|
  {
    if |rows| > 1 {
      var init, last := rows[..|rows| - 1], rows[|rows| - 1];
      TableBodyShape(init);
      assert init[0] == rows[0];
      assert rows[1..] == init[1..] + [last] by {
        TailOfInit(rows);
      }
      PlainRowsSnoc(init[1..], last);
      var a, b, c := RowLines(RowCells(rows[0]), true), PlainRows(init[1..]), RowLines(RowCells(last), false);
      assert TableBody(rows) == TableBody(init) + c;
      assert PlainRows(rows[1..]) == b + c;
      Assoc(a, b, c);
    } else {
      assert rows[..0] == [];
      assert rows[1..] == [];
    }
  }

  lemma JoinTwo(a: string, b: string, sep: string)
    ensures Join([a, b], sep) == a + sep + b
  {
    assert [a, b][1..] == [b];
  }

  /** A two-cell line. */
  lemma RowLineTwo(a: string, b: string)
    ensures RowLine([a, b]) == "| " + a + " | " + b + " |\n"
  {
    JoinTwo(a, b, " | ");
  }

  lemma CellsLine()
    ensures RowLine(["A", "B"]) == "| A | B |\n"
  {
    RowLineTwo("A", "B");
  }

  lemma SeparatorLine()
    ensures RowLine(Dashes(2)) == "| --- | --- |\n"
  {
    assert Dashes(2) == ["---", "---"];
    RowLineTwo("---", "---");
  }

  /** The first row of a table with the cells `A`, `B`, and its separator. */
  lemma HeaderRowExample()
    ensures RowLines(["A", "B"], true) == "| A | B |\n" + "| --- | --- |\n"
  {
    var cells := ["A", "B"];
    assert RowLines(cells, true) == RowLine(cells) + RowLine(Dashes(2));
    CellsLine();
    SeparatorLine();
  }

  /** The lines of a two-row table whose first row has the cells `A`, `B`. */
  lemma TableLinesExample()
    ensures RowLines(["A", "B"], true) + RowLines(["1", "2"], false)
            == "| A | B |\n" + "| --- | --- |\n" + "| 1 | 2 |\n"
  {
    HeaderRowExample();
    RowLineTwo("1", "2");
  }

  /** `.replace(/<table[^>]*>([\s\S]*?)<\/table>/gi, …)`. */
  function ConvertTables(s: string): (r: string)
    ensures '<' !in s ==> r == s
    decreases |s|
  {
    if s == [] then []
    else
      match ElementAt(s, 0, TableOpen, TableClose)
      case Some(m) =>
        OpensWithBracket(s, 0, TableOpen);
        TableMarkdown(s[m.contentStart..m.contentEnd]) + ConvertTables(s[m.end..])
      case None => [s[0]] + ConvertTables(s[1..])
  }

  /** A tag pattern starts with `<`, which only `<` matches. */
  lemma OpensWithBracket(s: string, p: nat, pat: Pattern)
    requires MatchesAt(s, p, pat) && pat != [] && pat[0] == "<"
    ensures s[p] == '<'
  {
    assert ToLowerChar(s[p + 0]) in pat[0];
  }

  /** Where no `<` stands, no tag pattern matches. */
  lemma NoBracket(s: string, j: nat, pat: Pattern)
    requires pat != [] && pat[0] == "<" && j < |s| && s[j] != '<'
    ensures !MatchesAt(s, j, pat)
  {
    if MatchesAt(s, j, pat) {
      OpensWithBracket(s, j, pat);
    }
  }

  /** One character the pattern does not allow rules out a match. */
  lemma Mismatch(s: string, j: nat, pat: Pattern, k: nat)
    requires k < |pat| && j + k < |s| && ToLowerChar(s[j + k]) !in pat[k]
    ensures !MatchesAt(s, j, pat)
  {
  }

  /** Matching after a prefix is matching in what follows it. */
  lemma MatchesAtShift(a: string, b: string, i: nat, pat: Pattern)
    ensures MatchesAt(a + b, |a| + i, pat) == MatchesAt(b, i, pat)
  {
    if i + |pat| <= |b| {
      forall k | |a| + i <= k < |a| + i + |pat| ensures (a + b)[k] == b[k - |a|] {
      }
    }
  }

  /** Matching within a prefix does not depend on what follows it. */
  lemma MatchesAtPrefix(a: string, b: string, i: nat, pat: Pattern)
    requires i + |pat| <= |a|
    ensures MatchesAt(a + b, i, pat) == MatchesAt(a, i, pat)
  {
    forall k | i <= k < i + |pat| ensures (a + b)[k] == a[k] {
    }
  }

  /** The lazy element match, position by position: the opening pattern at
      `p`, the first `>` after it at `g`, the first closing pattern after
      that at `e`. */
  lemma ElementAtFound(s: string, p: nat, q: nat, e: nat, open: Pattern, close: Pattern)
    requires close != [] && MatchesAt(s, p, open)
    requires p + |open| < q <= |s| && s[q - 1] == '>'
    requires forall j :: p + |open| <= j < q - 1 ==> s[j] != '>'
    requires q <= e && MatchesAt(s, e, close)
    requires forall j: nat :: q <= j < e ==> !MatchesAt(s, j, close)
    ensures ElementAt(s, p, open, close) == Some(Span(q, e, e + |close|))
  {
    assert IndexOfChar(s, '>', p + |open|) == Some(q - 1);
    assert FindFrom(s, close, q) == Some(e);
  }

  /** Positions where `open` does not match are passed over. */
  lemma {:induction false} MatchAllSkip(s: string, open: Pattern, close: Pattern, from: nat, until: nat)
    requires close != [] && from <= until <= |s|
    requires forall j: nat :: from <= j < until ==> !MatchesAt(s, j, open)
    ensures MatchAll(s, open, close, from) == MatchAll(s, open, close, until)
    decreases until - from
  {
    if from < until {
      MatchAllMiss(s, open, close, from);
      MatchAllSkip(s, open, close, from + 1, until);
    }
  }

  /** Where `open` does not match, the search moves on by one. */
  lemma MatchAllMiss(s: string, open: Pattern, close: Pattern, from: nat)
    requires close != [] && from < |s| && !MatchesAt(s, from, open)
    ensures MatchAll(s, open, close, from) == MatchAll(s, open, close, from + 1)
  {
    assert ElementAt(s, from, open, close).None?;
  }

  /** No match of `pat` starts anywhere in `s`. */
  predicate Absent(s: string, pat: Pattern) {
    forall j: nat :: j < |s| ==> !MatchesAt(s, j, pat)
  }

  // Tables written as `<tr><td>…</td>…</tr>`.

  /** A cell `<td>x</td>`. */
  function Cell(x: string): string {
    "<td>" + x + "</td>"
  }

  /** Cells one after the other. */
  function Cells(xs: seq<string>): string
    decreases |xs|
  {
    if xs == [] then [] else Cell(xs[0]) + Cells(xs[1..])
  }

  /** A row `<tr>` and its cells and `</tr>`. */
  function Row(xs: seq<string>): string {
    "<tr>" + Cells(xs) + "</tr>"
  }

  /** Rows one after the other. */
  function Rows(rows: seq<seq<string>>): string
    decreases |rows|
  {
    if rows == [] then [] else Row(rows[0]) + Rows(rows[1..])
  }

  /** Each cell written out on its own. */
  function CellElements(xs: seq<string>): (r: seq<string>)
    ensures |r| == |xs|
    decreases |xs|
  {
    if xs == [] then [] else [Cell(xs[0])] + CellElements(xs[1..])
  }

  /** Each row written out on its own. */
  function RowElements(rows: seq<seq<string>>): (r: seq<string>)
    ensures |r| == |rows|
    decreases |rows|
  {
    if rows == [] then [] else [Row(rows[0])] + RowElements(rows[1..])
  }

  lemma {:induction false} CellElementsAt(xs: seq<string>, i: nat)
    requires i < |xs|
    ensures CellElements(xs)[i] == Cell(xs[i])
    decreases i
  {
    if i > 0 {
      CellElementsAt(xs[1..], i - 1);
    }
  }

  lemma {:induction false} RowElementsAt(rows: seq<seq<string>>, i: nat)
    requires i < |rows|
    ensures RowElements(rows)[i] == Row(rows[i])
    decreases i
  {
    if i > 0 {
      RowElementsAt(rows[1..], i - 1);
    }
  }

  /** Cell contents without a `<`. */
  predicate TagFree(xs: seq<string>) {
    forall i :: 0 <= i < |xs| ==> '<' !in xs[i]
  }

  predicate TagFreeRows(rows: seq<seq<string>>) {
    forall i :: 0 <= i < |rows| ==> TagFree(rows[i])
  }

  /** No match of `pat` starts inside `c` when `t` follows it. */
  predicate NoCloseIn(c: string, t: string, pat: Pattern) {
    forall j: nat :: j < |c| ==> !MatchesAt(c + t, j, pat)
  }

  /** No closing tag `</x…` with `x` other than `d` matches inside written
      cells. */
  lemma {:induction false} CellsNoClose(xs: seq<string>, t: string, pat: Pattern)
    requires TagFree(xs)
    requires ClosesNoCell(pat)
    ensures NoCloseIn(Cells(xs), t, pat)
    decreases |xs|
  {
    if xs != [] {
      var x, c := xs[0], Cell(xs[0]);
      var u, v := Cells(xs) + t, Cells(xs[1..]) + t;
      assert u == c + v;
      assert TagFree(xs[1..]) by {
        forall i | 0 <= i < |xs[1..]| ensures '<' !in xs[1..][i] {
          assert xs[1..][i] == xs[i + 1];
        }
      }
      CellsNoClose(xs[1..], t, pat);
      forall i: nat | i < |Cells(xs)| ensures !MatchesAt(u, i, pat) {
        if i >= |c| {
          MatchesAtShift(c, v, i - |c|, pat);
        } else if i == 0 {
          assert u[1] == 't';
          Mismatch(u, i, pat, 1);
        } else if i == 4 + |x| {
          assert u[i + 3] == 'd';
          Mismatch(u, i, pat, 3);
        } else {
          assert u[i] == c[i];
          if 4 <= i < 4 + |x| {
            assert c[i] == x[i - 4];
          }
          NoBracket(u, i, pat);
        }
      }
    }
  }

  /** No closing tag `</x…` with `x` other than `d` or `r` matches inside
      written rows. */
  lemma {:induction false} RowsNoClose(rows: seq<seq<string>>, t: string, pat: Pattern)
    requires TagFreeRows(rows)
    requires ClosesNeither(pat)
    ensures NoCloseIn(Rows(rows), t, pat)
    decreases |rows|
  {
    if rows != [] {
      var r := Row(rows[0]);
      var v := Rows(rows[1..]) + t;
      assert Rows(rows) + t == r + v;
      assert TagFreeRows(rows[1..]) by {
        forall i | 0 <= i < |rows[1..]| ensures TagFree(rows[1..][i]) {
          assert rows[1..][i] == rows[i + 1];
        }
      }
      RowsNoClose(rows[1..], t, pat);
      RowNoClose(rows[0], v, pat);
      forall i: nat | |r| <= i < |Rows(rows)| ensures !MatchesAt(r + v, i, pat) {
        MatchesAtShift(r, v, i - |r|, pat);
      }
    }
  }

  lemma RowNoClose(xs: seq<string>, v: string, pat: Pattern)
    requires TagFree(xs)
    requires ClosesNeither(pat)
    ensures NoCloseIn(Row(xs), v, pat)
  {
    var r, n := Row(xs), |Cells(xs)|;
    var u := r + v;
    assert u == "<tr>" + (Cells(xs) + ("</tr>" + v));
    CellsNoClose(xs, "</tr>" + v, pat);
    forall i: nat | i < |r| ensures !MatchesAt(u, i, pat) {
      if 4 <= i < 4 + n {
        MatchesAtShift("<tr>", Cells(xs) + ("</tr>" + v), i - 4, pat);
      } else if i == 0 {
        assert u[1] == 't';
        Mismatch(u, i, pat, 1);
      } else if i == 4 + n {
        assert u[i + 3] == 'r';
        Mismatch(u, i, pat, 3);
      } else {
        assert u[i] == r[i];
        NoBracket(u, i, pat);
      }
    }
  }

  /** A written cell is one `<t[hd]>…</t[hd]>` match: its content is `x`. */
  lemma ElementAtCell(pre: string, x: string, rest: string)
    requires '<' !in x
    ensures ElementAt(pre + Cell(x) + rest, |pre|, CellOpen, CellClose)
            == Some(Span(|pre| + 4, |pre| + 4 + |x|, |pre| + |Cell(x)|))
  {
    var s, p := pre + Cell(x) + rest, |pre|;
    var e := p + 4 + |x|;
    assert s == pre + ("<td>" + (x + ("</td>" + rest)));
    forall k | 0 <= k < 4 ensures s[p + k] == "<td>"[k] {
    }
    forall k | 0 <= k < 5 ensures s[e + k] == "</td>"[k] {
    }
    forall j: nat | p + 4 <= j < e ensures !MatchesAt(s, j, CellClose) {
      assert s[j] == x[j - p - 4];
      NoBracket(s, j, CellClose);
    }
    ElementAtFound(s, p, p + 4, e, CellOpen, CellClose);
  }

  /** The closing patterns of rows and tables start with `</` and are not
      cell closings. */
  lemma ClosingShapes()
    ensures ClosesNoCell(RowClose) && ClosesNeither(TableClose)
  {
    assert RowClose[3] == "r" && TableClose[3] == "a";
  }

  /** A closing pattern `</x…` with `x` other than `d`: it never matches
      where a cell closes. */
  predicate ClosesNoCell(pat: Pattern) {
    |pat| >= 4 && pat[0] == "<" && pat[1] == "/" && 'd' !in pat[3]
  }

  /** A closing pattern `</x…` with `x` neither `d` nor `r`. */
  predicate ClosesNeither(pat: Pattern) {
    ClosesNoCell(pat) && 'r' !in pat[3]
  }

  /** `<tr>c</tr>` is one row match when no `</tr>` starts inside `c`. */
  lemma ElementAtRowText(pre: string, row: string, c: string, rest: string)
    requires row == "<tr>" + c + "</tr>"
    requires NoCloseIn(c, "</tr>" + rest, RowClose)
    ensures ElementAt(pre + row + rest, |pre|, RowOpen, RowClose)
            == Some(Span(|pre| + 4, |pre| + 4 + |c|, |pre| + |c| + 9))
  {
    var head, tail := pre + "<tr>", c + ("</tr>" + rest);
    var s, p := head + tail, |pre|;
    var e := p + 4 + |c|;
    RowTags(pre, c, rest);
    forall j: nat | p + 4 <= j < e ensures !MatchesAt(s, j, RowClose) {
      MatchesAtShift(head, tail, j - p - 4, RowClose);
    }
    ElementAtFound(s, p, p + 4, e, RowOpen, RowClose);
  }

  /** Where the tags of `<tr>c</tr>` stand. */
  lemma RowTags(pre: string, c: string, rest: string)
    ensures pre + ("<tr>" + c + "</tr>") + rest == (pre + "<tr>") + (c + ("</tr>" + rest))
    ensures MatchesAt((pre + "<tr>") + (c + ("</tr>" + rest)), |pre|, RowOpen)
    ensures ((pre + "<tr>") + (c + ("</tr>" + rest)))[|pre| + 3] == '>'
    ensures MatchesAt((pre + "<tr>") + (c + ("</tr>" + rest)), |pre| + 4 + |c|, RowClose)
  {
    var head, tail := pre + "<tr>", c + ("</tr>" + rest);
    assert pre + ("<tr>" + c + "</tr>") + rest == head + tail;
    RowLiterals();
    MatchesAtPrefix(head, tail, |pre|, RowOpen);
    MatchesAtShift(pre, "<tr>", 0, RowOpen);
    assert (head + tail)[|pre| + 3] == head[|pre| + 3];
    MatchesAtShift(head, tail, |c|, RowClose);
    MatchesAtShift(c, "</tr>" + rest, 0, RowClose);
    MatchesAtPrefix("</tr>", rest, 0, RowClose);
  }

  /** The row tags as written match the row patterns. */
  lemma RowLiterals()
    ensures MatchesAt("<tr>", 0, RowOpen) && MatchesAt("</tr>", 0, RowClose)
  {
  }

  /** Nothing matches in text where `open` never matches. */
  lemma MatchAllNone(pre: string, post: string, open: Pattern, close: Pattern)
    requires close != [] && Absent(post, open)
    ensures MatchAll(pre + post, open, close, |pre|) == []
  {
    var s := pre + post;
    forall j: nat | |pre| <= j < |s| ensures !MatchesAt(s, j, open) {
      MatchesAtShift(pre, post, j - |pre|, open);
    }
    MatchAllSkip(s, open, close, |pre|, |s|);
  }

  lemma SameStart(s: string, open: Pattern, close: Pattern, i: nat, j: nat)
    requires close != [] && i == j
    ensures MatchAll(s, open, close, i) == MatchAll(s, open, close, j)
  {
  }

  /** A match at `from` is the first of the matches from there. */
  lemma MatchAllHit(s: string, open: Pattern, close: Pattern, from: nat, m: Span)
    requires close != [] && ElementAt(s, from, open, close) == Some(m)
    ensures MatchAll(s, open, close, from) == [s[from..m.end]] + MatchAll(s, open, close, m.end)
  {
  }

  /** A written cell is the next match. */
  lemma MatchAllCellStep(pre: string, x: string, rest: string)
    requires '<' !in x
    ensures MatchAll(pre + Cell(x) + rest, CellOpen, CellClose, |pre|)
            == [Cell(x)] + MatchAll(pre + Cell(x) + rest, CellOpen, CellClose, |pre + Cell(x)|)
  {
    var s := pre + Cell(x) + rest;
    var n := |pre| + |Cell(x)|;
    ElementAtCell(pre, x, rest);
    assert s[|pre|..n] == Cell(x);
    MatchAllHit(s, CellOpen, CellClose, |pre|, Span(|pre| + 4, |pre| + 4 + |x|, n));
  }

  /** A written row is the next match. */
  lemma MatchAllRowStep(pre: string, xs: seq<string>, rest: string)
    requires TagFree(xs)
    ensures MatchAll(pre + Row(xs) + rest, RowOpen, RowClose, |pre|)
            == [Row(xs)] + MatchAll(pre + Row(xs) + rest, RowOpen, RowClose, |pre + Row(xs)|)
  {
    var s := pre + Row(xs) + rest;
    var n := |pre| + |Cells(xs)| + 9;
    assert NoCloseIn(Cells(xs), "</tr>" + rest, RowClose) by {
      ClosingShapes();
      CellsNoClose(xs, "</tr>" + rest, RowClose);
    }
    ElementAtRowText(pre, Row(xs), Cells(xs), rest);
    assert s[|pre|..n] == Row(xs);
    MatchAllHit(s, RowOpen, RowClose, |pre|, Span(|pre| + 4, |pre| + 4 + |Cells(xs)|, n));
    SameStart(s, RowOpen, RowClose, n, |pre + Row(xs)|);
  }

  /** The ways of reading `pre + x + y + post`. */
  lemma Regroup(pre: string, x: string, y: string, post: string)
    ensures pre + (x + y) + post == pre + x + (y + post)
    ensures pre + (x + y) + post == (pre + x) + y + post
    ensures pre + x + (y + post) == (pre + x) + y + post
    ensures (pre + (x + y) + post)[|pre|..|pre| + |x|] == x
  {
  }

  /** The cells of written cells, followed by text where no cell opens. */
  lemma {:induction false} MatchAllCells(pre: string, xs: seq<string>, post: string)
    requires TagFree(xs) && Absent(post, CellOpen)
    ensures MatchAll(pre + Cells(xs) + post, CellOpen, CellClose, |pre|) == CellElements(xs)
    decreases |xs|
  {
    if xs == [] {
      assert pre + Cells(xs) + post == pre + post;
      MatchAllNone(pre, post, CellOpen, CellClose);
    } else {
      var ys := xs[1..];
      assert TagFree(ys) by {
        forall i | 0 <= i < |ys| ensures '<' !in ys[i] {
          assert ys[i] == xs[i + 1];
        }
      }
      MatchAllCells(pre + Cell(xs[0]), ys, post);
      MatchAllCellsCons(pre, xs, post);
    }
  }

  lemma MatchAllCellsCons(pre: string, xs: seq<string>, post: string)
    requires xs != [] && '<' !in xs[0]
    requires MatchAll(pre + Cell(xs[0]) + Cells(xs[1..]) + post, CellOpen, CellClose, |pre + Cell(xs[0])|)
             == CellElements(xs[1..])
    ensures MatchAll(pre + Cells(xs) + post, CellOpen, CellClose, |pre|) == CellElements(xs)
  {
    var x, ys := xs[0], xs[1..];
    Regroup(pre, Cell(x), Cells(ys), post);
    MatchAllCellStep(pre, x, Cells(ys) + post);
  }

  /** The rows of written rows, followed by text where no row opens. */
  lemma {:induction false} MatchAllRows(pre: string, rows: seq<seq<string>>, post: string)
    requires TagFreeRows(rows) && Absent(post, RowOpen)
    ensures MatchAll(pre + Rows(rows) + post, RowOpen, RowClose, |pre|) == RowElements(rows)
    decreases |rows|
  {
    if rows == [] {
      assert pre + Rows(rows) + post == pre + post;
      MatchAllNone(pre, post, RowOpen, RowClose);
    } else {
      var tail := rows[1..];
      assert TagFreeRows(tail) by {
        forall i | 0 <= i < |tail| ensures TagFree(tail[i]) {
          assert tail[i] == rows[i + 1];
        }
      }
      MatchAllRows(pre + Row(rows[0]), tail, post);
      MatchAllRowsCons(pre, rows, post);
    }
  }

  lemma MatchAllRowsCons(pre: string, rows: seq<seq<string>>, post: string)
    requires rows != [] && TagFree(rows[0])
    requires MatchAll(pre + Row(rows[0]) + Rows(rows[1..]) + post, RowOpen, RowClose, |pre + Row(rows[0])|)
             == RowElements(rows[1..])
    ensures MatchAll(pre + Rows(rows) + post, RowOpen, RowClose, |pre|) == RowElements(rows)
  {
    var xs, tail := rows[0], rows[1..];
    Regroup(pre, Row(xs), Rows(tail), post);
    MatchAllRowStep(pre, xs, Rows(tail) + post);
  }

  /** A written cell's text is that of its content. */
  lemma CellTextWritten(x: string)
    requires '<' !in x
    ensures CellText(Cell(x)) == CellText(x)
  {
    StripCell(x);
  }

  lemma StripCell(x: string)
    requires '<' !in x
    ensures StripTags(Cell(x)) == x
  {
    var t := x + "</td>";
    assert Cell(x) == [] + ("<" + "td" + ">" + t);
    StripTagsTag([], "td", t);
    assert t == x + ("<" + "/td" + ">" + []);
    StripTagsTag(x, "/td", []);
  }

  /** The cells of a written row are the texts of what was written in
      them. */
  lemma RowCellsWritten(xs: seq<string>)
    requires TagFree(xs)
    ensures |RowCells(Row(xs))| == |xs|
    ensures forall i :: 0 <= i < |xs| ==> RowCells(Row(xs))[i] == CellText(xs[i])
  {
    RowTagsNoCell(xs);
    MatchAllCells("<tr>", xs, "</tr>");
    forall i | 0 <= i < |xs| ensures RowCells(Row(xs))[i] == CellText(xs[i]) {
      CellElementsAt(xs, i);
      CellTextWritten(xs[i]);
    }
  }

  /** No cell opens in the row's own tags. */
  lemma RowTagsNoCell(xs: seq<string>)
    ensures Row(xs) == "<tr>" + Cells(xs) + "</tr>"
    ensures MatchAll(Row(xs), CellOpen, CellClose, 0) == MatchAll(Row(xs), CellOpen, CellClose, 4)
    ensures Absent("</tr>", CellOpen)
  {
    RowHeadNoCell(Row(xs));
    RowCloseNoCell();
  }

  /** No cell opens in the first four characters of a row. */
  lemma RowHeadNoCell(row: string)
    requires |row| >= 4 && row[..4] == "<tr>"
    ensures MatchAll(row, CellOpen, CellClose, 0) == MatchAll(row, CellOpen, CellClose, 4)
  {
    assert row[2] == 'r' && row[1] == 't' && row[3] == '>';
    Mismatch(row, 0, CellOpen, 2);
    forall j: nat | 1 <= j < 4 ensures !MatchesAt(row, j, CellOpen) {
      NoBracket(row, j, CellOpen);
    }
    MatchAllSkip(row, CellOpen, CellClose, 0, 4);
  }

  /** No cell opens in `</tr>`. */
  lemma RowCloseNoCell()
    ensures Absent("</tr>", CellOpen)
  {
    var close := "</tr>";
    Mismatch(close, 0, CellOpen, 1);
    forall j: nat | 1 <= j < 5 ensures !MatchesAt(close, j, CellOpen) {
      NoBracket(close, j, CellOpen);
    }
  }

  /** The rows of written rows are those rows. */
  lemma TableRowsWritten(rows: seq<seq<string>>)
    requires TagFreeRows(rows)
    ensures |TableRows(Rows(rows))| == |rows|
    ensures forall i :: 0 <= i < |rows| ==> TableRows(Rows(rows))[i] == Row(rows[i])
  {
    assert Rows(rows) == "" + Rows(rows) + "";
    MatchAllRows("", rows, "");
    forall i | 0 <= i < |rows| ensures TableRows(Rows(rows))[i] == Row(rows[i]) {
      RowElementsAt(rows, i);
    }
  }

  /** Text before the first `<` is kept. */
  lemma {:induction false} ConvertTablesSkip(a: string, b: string)
    requires '<' !in a
    ensures ConvertTables(a + b) == a + ConvertTables(b)
    decreases |a|
  {
    if a != [] {
      var s := a + b;
      assert s[0] == a[0] && a[0] in a;
      if MatchesAt(s, 0, TableOpen) {
        OpensWithBracket(s, 0, TableOpen);
      }
      assert s[1..] == a[1..] + b;
      assert '<' !in a[1..];
      ConvertTablesSkip(a[1..], b);
      assert a == [a[0]] + a[1..];
      Assoc([a[0]], a[1..], ConvertTables(b));
    } else {
      assert a + b == b;
    }
  }

  /** A `<table …>` element whose content holds no `</table>` is replaced by
      the Markdown of that content; the text before it is kept and the text
      after it converted in turn. */
  lemma ConvertTablesElement(a: string, attrs: string, c: string, b: string)
    requires '<' !in a && '>' !in attrs
    requires forall j: nat :: j < |c| ==> !MatchesAt(c + "</table>", j, TableClose)
    ensures ConvertTables(a + ("<table" + attrs + ">" + c + "</table>" + b))
            == a + (TableMarkdown(c) + ConvertTables(b))
  {
    var s := "<table" + attrs + ">" + c + "</table>" + b;
    ConvertTablesTag(attrs, c, b);
    ConvertTablesSkip(a, s);
    Rewrite(ConvertTables(a + s), a, ConvertTables(s), a, TableMarkdown(c) + ConvertTables(b));
  }

  /** The table element at the very start of the text. */
  lemma ConvertTablesTag(attrs: string, c: string, b: string)
    requires '>' !in attrs
    requires forall j: nat :: j < |c| ==> !MatchesAt(c + "</table>", j, TableClose)
    ensures ConvertTables("<table" + attrs + ">" + c + "</table>" + b) == TableMarkdown(c) + ConvertTables(b)
  {
    var tag := "<table" + attrs + ">";
    var s := tag + (c + ("</table>" + b));
    TableTags(tag, attrs, c, b, s);
    TableContentNoClose(tag, c, b);
    ElementAtFound(s, 0, |tag|, |tag| + |c|, TableOpen, TableClose);
    ConvertTablesAt(s, |tag|, |tag| + |c|, |tag| + |c| + |TableClose|);
    Rewrite(ConvertTables(s), TableMarkdown(s[|tag|..|tag| + |c|]), ConvertTables(s[|tag| + |c| + |TableClose|..]),
            TableMarkdown(c), ConvertTables(b));
  }

  /** A cell holding one word: its text is that word. */
  lemma CellTextWord(x: string)
    requires x != [] && forall i :: 0 <= i < |x| ==> x[i] != '<' && !IsSpace(x[i])
    ensures CellText(x) == x
  {
    assert '<' !in x;
    assert StripTags(x) == x;
    assert CollapseSpaces(x) == x;
  }

  /** The cells of a written two-cell row of words. */
  lemma TwoWordRow(x: string, y: string)
    requires x != [] && forall i :: 0 <= i < |x| ==> x[i] != '<' && !IsSpace(x[i])
    requires y != [] && forall i :: 0 <= i < |y| ==> y[i] != '<' && !IsSpace(y[i])
    ensures RowCells(Row([x, y])) == [x, y]
  {
    var xs := [x, y];
    assert xs[0] == x && xs[1] == y;
    assert TagFree(xs);
    RowCellsWritten(xs);
    CellTextWord(x);
    CellTextWord(y);
    PairOfTexts(RowCells(Row(xs)), xs);
  }

  lemma PairOfTexts(found: seq<string>, xs: seq<string>)
    requires |found| == |xs| == 2
    requires found[0] == xs[0] && found[1] == xs[1]
    ensures found == xs
  {
  }

  /** The rows of a written two-row table. */
  lemma TwoRowBody(r0: seq<string>, r1: seq<string>)
    requires TagFree(r0) && TagFree(r1)
    ensures TableMarkdown(Rows([r0, r1]))
            == "\n\n" + (RowLines(RowCells(Row(r0)), true) + RowLines(RowCells(Row(r1)), false)) + "\n\n"
  {
    var rows := [r0, r1];
    assert TagFreeRows(rows);
    TableRowsWritten(rows);
    assert TableRows(Rows(rows)) == [Row(r0), Row(r1)];
    BodyOfTwo(Row(r0), Row(r1));
  }

  lemma BodyOfTwo(a: string, b: string)
    ensures TableBody([a, b]) == RowLines(RowCells(a), true) + RowLines(RowCells(b), false)
  {
    var one, two := [a], [a, b];
    assert two[..1] == one && two[1] == b;
    assert one[..0] == [] && one[0] == a;
    var la, lb := RowLines(RowCells(a), true), RowLines(RowCells(b), false);
    assert TableBody(one) == TableBody([]) + la;
    assert [] + la == la;
    assert TableBody(two) == TableBody(one) + lb;
  }

  /** Two cells written out. */
  lemma TwoCells(x: string, y: string)
    ensures Cells([x, y]) == Cell(x) + Cell(y)
  {
    assert [x, y][1..] == [y];
    assert [y][1..] == [];
    assert Cells([y]) == Cell(y) + Cells([]);
    assert Cell(y) + [] == Cell(y);
  }

  lemma FirstRow()
    ensures Row(["A", "B"]) == "<tr><td>A</td><td>B</td></tr>"
  {
    TwoCells("A", "B");
    assert Cell("A") == "<td>A</td>";
    assert Cell("B") == "<td>B</td>";
  }

  lemma SecondRow()
    ensures Row(["1", "2"]) == "<tr><td>1</td><td>2</td></tr>"
  {
    TwoCells("1", "2");
    assert Cell("1") == "<td>1</td>";
    assert Cell("2") == "<td>2</td>";
  }

  /** The documented example, from the HTML: a two-row table with the cells
      `A`, `B` and `1`, `2` becomes a Markdown table whose first row is the
      header, set off by blank lines. */
  lemma HtmlTableExample()
    ensures ConvertTables("<table>" + "<tr><td>A</td><td>B</td></tr>" + "<tr><td>1</td><td>2</td></tr>" + "</table>")
            == "\n\n" + ("| A | B |\n" + "| --- | --- |\n" + "| 1 | 2 |\n") + "\n\n"
  {
    var r0, r1 := ["A", "B"], ["1", "2"];
    var rows := [r0, r1];
    var html := "<table>" + "<tr><td>A</td><td>B</td></tr>" + "<tr><td>1</td><td>2</td></tr>" + "</table>";
    assert TagFree(r0) && TagFree(r1);
    calc {
      ConvertTables(html);
      { FirstRow(); SecondRow();
        WrapTable(r0, r1, "<tr><td>A</td><td>B</td></tr>", "<tr><td>1</td><td>2</td></tr>"); }
      ConvertTables([] + ("<table>" + Rows(rows) + "</table>" + []));
      { ConvertTablesWritten([], rows, []); }
      [] + (TableMarkdown(Rows(rows)) + ConvertTables([]));
      TableMarkdown(Rows(rows));
      { TwoRowBody(r0, r1); }
      "\n\n" + (RowLines(RowCells(Row(r0)), true) + RowLines(RowCells(Row(r1)), false)) + "\n\n";
      { WordRows(); }
      "\n\n" + (RowLines(["A", "B"], true) + RowLines(["1", "2"], false)) + "\n\n";
      { TableLinesExample(); }
      "\n\n" + ("| A | B |\n" + "| --- | --- |\n" + "| 1 | 2 |\n") + "\n\n";
    }
  }

  lemma WordRows()
    ensures RowCells(Row(["A", "B"])) == ["A", "B"]
    ensures RowCells(Row(["1", "2"])) == ["1", "2"]
  {
    TwoWordRow("A", "B");
    TwoWordRow("1", "2");
  }

  lemma WrapTable(r0: seq<string>, r1: seq<string>, h0: string, h1: string)
    requires Row(r0) == h0 && Row(r1) == h1
    ensures "<table>" + h0 + h1 + "</table>" == [] + ("<table>" + Rows([r0, r1]) + "</table>" + [])
  {
    RowsOfTwo(r0, r1);
  }

  lemma RowsOfTwo(r0: seq<string>, r1: seq<string>)
    ensures Rows([r0, r1]) == Row(r0) + Row(r1)
  {
    assert [r0, r1][1..] == [r1];
    assert Rows([r1]) == Row(r1) + Rows([]);
    assert Row(r1) + [] == Row(r1);
  }

  /** Equals substituted in a concatenation. */
  lemma Rewrite(z: string, x: string, y: string, x': string, y': string)
    requires z == x + y && x == x' && y == y'
    ensures z == x' + y'
  {
  }

  /** An element at the start is replaced by the Markdown of its content. */
  lemma ConvertTablesAt(s: string, q: nat, e: nat, f: nat)
    requires ElementAt(s, 0, TableOpen, TableClose) == Some(Span(q, e, f))
    ensures q <= e <= f <= |s|
    ensures ConvertTables(s) == TableMarkdown(s[q..e]) + ConvertTables(s[f..])
  {
  }

  /** Where the tags of `<table attrs>c</table>` stand. */
  lemma TableTags(tag: string, attrs: string, c: string, b: string, s: string)
    requires '>' !in attrs && tag == "<table" + attrs + ">" && s == tag + (c + ("</table>" + b))
    ensures MatchesAt(s, 0, TableOpen) && 0 + |TableOpen| < |tag| && s[|tag| - 1] == '>'
    ensures forall j :: 0 + |TableOpen| <= j < |tag| - 1 ==> s[j] != '>'
    ensures MatchesAt(s, |tag| + |c|, TableClose)
    ensures s[|tag|..|tag| + |c|] == c && s[|tag| + |c| + |TableClose|..] == b
    ensures tag + c + "</table>" + b == s
  {
    var tail := c + ("</table>" + b);
    forall k | 0 <= k < 6 ensures s[k] == "<table"[k] {
      assert s[k] == tag[k];
    }
    forall j | 6 <= j < |tag| - 1 ensures s[j] != '>' {
      assert s[j] == tag[j] == attrs[j - 6];
    }
    assert s[|tag| - 1] == tag[|tag| - 1];
    forall k | 0 <= k < 8 ensures s[|tag| + |c| + k] == "</table>"[k] {
      assert s[|tag| + |c| + k] == tail[|c| + k];
    }
  }

  lemma TableContentNoClose(tag: string, c: string, b: string)
    requires forall j: nat :: j < |c| ==> !MatchesAt(c + "</table>", j, TableClose)
    ensures forall j: nat :: |tag| <= j < |tag| + |c| ==> !MatchesAt(tag + (c + ("</table>" + b)), j, TableClose)
  {
    assert (c + "</table>") + b == c + ("</table>" + b);
    forall j: nat | |tag| <= j < |tag| + |c| ensures !MatchesAt(tag + (c + ("</table>" + b)), j, TableClose) {
      MatchesAtPrefix(c + "</table>", b, j - |tag|, TableClose);
      MatchesAtShift(tag, c + ("</table>" + b), j - |tag|, TableClose);
    }
  }

  /** A table of written rows becomes the Markdown table of their cell
      texts. */
  lemma ConvertTablesWritten(a: string, rows: seq<seq<string>>, b: string)
    requires '<' !in a && TagFreeRows(rows)
    ensures ConvertTables(a + ("<table>" + Rows(rows) + "</table>" + b))
            == a + (TableMarkdown(Rows(rows)) + ConvertTables(b))
  {
    ClosingShapes();
    RowsNoClose(rows, "</table>", TableClose);
    assert "<table>" == "<table" + "" + ">";
    ConvertTablesElement(a, "", Rows(rows), b);
  }

  // Entities.

  /** The entity passes, applied in this order: `&amp;` last. */
  function EntityOf(k: nat): string
    requires k < 6
  {
    match k
    case 0 => "&nbsp;"
    case 1 => "&lt;"
    case 2 => "&gt;"
    case 3 => "&quot;"
    case 4 => "&#39;"
    case 5 => "&amp;"
  }

  function CharOf(k: nat): char
    requires k < 6
  {
    match k
    case 0 => ' '
    case 1 => '<'
    case 2 => '>'
    case 3 => '"'
    case 4 => '\''
    case 5 => '&'
  }

  /** Entity pass `k`: every occurrence of the `k`-th entity becomes its
      character. */
  function Pass(s: string, k: nat): string
    requires k < 6
  {
    ReplaceAll(s, EntityOf(k), [CharOf(k)])
  }

  /** The six `replace` calls, in source order: `&nbsp;`, `&lt;`, `&gt;`,
      `&quot;`, `&#39;`, `&amp;`. */
  function DecodeEntities(s: string): (r: string)
    ensures '&' !in s ==> r == s
  {
    PassKeeps(s, 0);
    PassKeeps(Pass(s, 0), 1);
    PassKeeps(Pass(Pass(s, 0), 1), 2);
    PassKeeps(Pass(Pass(Pass(s, 0), 1), 2), 3);
    PassKeeps(Pass(Pass(Pass(Pass(s, 0), 1), 2), 3), 4);
    PassKeeps(Pass(Pass(Pass(Pass(Pass(s, 0), 1), 2), 3), 4), 5);
    Pass(Pass(Pass(Pass(Pass(Pass(s, 0), 1), 2), 3), 4), 5)
  }

  /** Every entity starts with `&`, so a pass leaves text without one as
      it is. */
  lemma PassKeeps(s: string, k: nat)
    requires k < 6
    ensures '&' !in s ==> Pass(s, k) == s
  {
    assert EntityOf(k)[0] == '&';
  }

  // An escaper, the inverse the entity decoding is checked against.

  predicate IsEscaped(c: char) {
    c == '<' || c == '>' || c == '"' || c == '\'' || c == '&'
  }

  /** The pass that decodes the entity of an escaped character. */
  function PassOf(c: char): (k: nat)
    requires IsEscaped(c)
    ensures 1 <= k < 6 && CharOf(k) == c
  {
    if c == '<' then 1 else if c == '>' then 2 else if c == '"' then 3
    else if c == '\'' then 4 else 5
  }

  function EscapeChar(c: char): string {
    if IsEscaped(c) then EntityOf(PassOf(c)) else [c]
  }

  /** HTML escaping of `&`, `<`, `>`, `"` and `'`. */
  function EscapeHtml(t: string): string
    decreases |t|
  {
    if t == [] then [] else EscapeChar(t[0]) + EscapeHtml(t[1..])
  }

  /** `t` escaped, after the first `k` entity passes have run: characters
      whose pass has run are back to themselves. */
  function Staged(t: string, k: nat): string
    decreases |t|
  {
    if t == [] then []
    else (if IsEscaped(t[0]) && k <= PassOf(t[0]) then EntityOf(PassOf(t[0])) else [t[0]]) + Staged(t[1..], k)
  }

  lemma {:induction false} StagedStart(t: string)
    ensures Staged(t, 0) == EscapeHtml(t)
    decreases |t|
  {
    if t != [] {
      StagedStart(t[1..]);
    }
  }

  lemma {:induction false} StagedEnd(t: string)
    ensures Staged(t, 6) == t
    decreases |t|
  {
    if t != [] {
      StagedEnd(t[1..]);
      assert t == [t[0]] + t[1..];
    }
  }

  /** An entity other than the one a pass looks for cannot start a match
      of it, and holds no further `&`. */
  lemma EntityOther(k: nat, e: nat, rest: string)
    requires k < 6 && e < 6 && k != e
    ensures !OccursAt(EntityOf(e) + rest, EntityOf(k), 0)
    ensures EntityOf(e)[0] == '&' && '&' !in EntityOf(e)[1..]
  {
    EntityShape(e);
    var s := EntityOf(e) + rest;
    assert s[1] == EntityOf(e)[1];
    assert |EntityOf(k)| <= |s| ==> s[..|EntityOf(k)|][1] == s[1];
  }

  lemma EntityShape(e: nat)
    requires e < 6
    ensures |EntityOf(e)| >= 4 && EntityOf(e)[0] == '&' && '&' !in EntityOf(e)[1..]
  {
  }

  /** The character whose pass this is: its entity becomes the character. */
  lemma StagePassHit(k: nat, rest: string)
    requires k < 6
    ensures ReplaceAll(EntityOf(k) + rest, EntityOf(k), [CharOf(k)]) == [CharOf(k)] + ReplaceAll(rest, EntityOf(k), [CharOf(k)])
  {
    var pat := EntityOf(k);
    var s := pat + rest;
    assert OccursAt(s, pat, 0) by {
      assert s[..|pat|] == pat;
    }
    assert s[|pat|..] == rest;
  }

  /** A character whose pass is still to come: its entity is kept. */
  lemma StagePassLater(k: nat, e: nat, rest: string)
    requires k < e < 6
    ensures ReplaceAll(EntityOf(e) + rest, EntityOf(k), [CharOf(k)]) == EntityOf(e) + ReplaceAll(rest, EntityOf(k), [CharOf(k)])
  {
    EntityOther(k, e, rest);
    ReplaceAllMissHead(EntityOf(e), rest, EntityOf(k), [CharOf(k)]);
  }

  /** A piece that does not start an occurrence and holds no other start
      of one passes through unchanged. */
  lemma ReplaceAllMissHead(x: string, rest: string, pat: string, rep: string)
    requires pat != [] && x != [] && !OccursAt(x + rest, pat, 0) && pat[0] !in x[1..]
    ensures ReplaceAll(x + rest, pat, rep) == x + ReplaceAll(rest, pat, rep)
  {
    var s := x + rest;
    var tail := x[1..];
    assert s[0] == x[0];
    assert s[1..] == tail + rest;
    assert ReplaceAll(s, pat, rep) == [x[0]] + ReplaceAll(tail + rest, pat, rep);
    ReplaceAllSkips(tail, rest, pat, rep);
    Assoc([x[0]], tail, ReplaceAll(rest, pat, rep));
    assert x == [x[0]] + tail;
  }

  /** Pass `k` turns stage `k` into stage `k + 1`. */
  lemma {:induction false} StagePass(t: string, k: nat)
    requires k < 6
    ensures Pass(Staged(t, k), k) == Staged(t, k + 1)
    decreases |t|
  {
    if t != [] {
      var c := t[0];
      var rest := Staged(t[1..], k);
      StagePass(t[1..], k);
      if IsEscaped(c) && k == PassOf(c) {
        assert Staged(t, k) == EntityOf(k) + rest;
        assert Staged(t, k + 1) == [c] + Staged(t[1..], k + 1);
        StagePassHit(k, rest);
      } else if IsEscaped(c) && k < PassOf(c) {
        assert Staged(t, k) == EntityOf(PassOf(c)) + rest;
        assert Staged(t, k + 1) == EntityOf(PassOf(c)) + Staged(t[1..], k + 1);
        StagePassLater(k, PassOf(c), rest);
      } else {
        assert Staged(t, k) == [c] + rest;
        assert Staged(t, k + 1) == [c] + Staged(t[1..], k + 1);
        assert c != '&';
        ReplaceAllSkips([c], rest, EntityOf(k), [CharOf(k)]);
      }
    }
  }

  /** Decoding undoes escaping: each pass turns back exactly the
      characters it is for, and because `&amp;` comes last an escaped
      entity is decoded only once. */
  lemma DecodeEntitiesEscape(t: string)
    ensures DecodeEntities(EscapeHtml(t)) == t
  {
    StagedStart(t);
    StagedPasses(t, 0);
    PassesDecode(EscapeHtml(t));
  }

  /** The passes from the `k`-th on. */
  function PassesFrom(s: string, k: nat): string
    requires k <= 6
    decreases 6 - k
  {
    if k == 6 then s else PassesFrom(Pass(s, k), k + 1)
  }

  lemma PassesDecode(s: string)
    ensures DecodeEntities(s) == PassesFrom(s, 0)
  {
  }

  /** The remaining passes finish decoding an escaped text. */
  lemma {:induction false} StagedPasses(t: string, k: nat)
    requires k <= 6
    ensures PassesFrom(Staged(t, k), k) == t
    decreases 6 - k
  {
    if k == 6 {
      StagedEnd(t);
    } else {
      StagePass(t, k);
      StagedPasses(t, k + 1);
    }
  }

  /** The worked example: `&amp;lt;` decodes to `&lt;`, not to `<`. */
  lemma AmpersandLast()
    ensures DecodeEntities("&amp;lt;") == "&lt;"
  {
    var t := "&lt;";
    assert EscapeHtml(t[3..]) == ";";
    assert EscapeHtml(t[2..]) == "t;";
    assert EscapeHtml(t[1..]) == "lt;";
    assert EscapeHtml(t) == "&amp;lt;";
    DecodeEntitiesEscape(t);
  }

  // Whitespace clean-up.

  /** The number of line feeds in the whitespace run that starts `s`. */
  function RunNewlines(s: string): nat {
    multiset(s[..LeadingSpaces(s)])['\n']
  }

  /** No whitespace run holds more than two line feeds: at most one blank
      line anywhere. */
  predicate AtMostOneBlankLine(s: string) {
    forall i :: 0 <= i < |s| ==> RunAt(s, i) <= 2
  }

  /** The line feeds of the whitespace run at position `i`. */
  function RunAt(s: string, i: nat): nat
    requires i <= |s|
  {
    RunNewlines(s[i..])
  }

  /** The length of the longest suffix of `t` without a line feed. */
  function AfterLastNewline(t: string): (n: nat)
    ensures n <= |t|
    ensures forall i :: |t| - n <= i < |t| ==> t[i] != '\n'
    ensures n < |t| ==> t[|t| - 1 - n] == '\n'
  {
    if t == [] || t[|t| - 1] == '\n' then 0 else 1 + AfterLastNewline(t[..|t| - 1])
  }

  /** Where a collapse resumes: just past the last line feed of the
      whitespace run that starts `s`. */
  function PastLastNewline(s: string): (q: nat)
    requires s != [] && s[0] == '\n'
    ensures 0 < q <= LeadingSpaces(s)
  {
    var w := LeadingSpaces(s);
    assert s[..w][0] == '\n';
    w - AfterLastNewline(s[..w])
  }

  /** `s.replace(/\n\s*\n\s*\n+/g, '\n\n')`. A match starts at a line feed
      whose whitespace run holds at least three line feeds and, the `\s*`
      being greedy and `\n+` having to end on a line feed, ends after the
      last line feed of that run; the whitespace after it is kept. */
  function CollapseBlankLines(s: string): (r: string)
    ensures '\n' !in s ==> r == s
    decreases |s|
  {
    if s == [] then []
    else if s[0] == '\n' && RunNewlines(s) >= 3 then "\n\n" + CollapseBlankLines(s[PastLastNewline(s)..])
    else [s[0]] + CollapseBlankLines(s[1..])
  }

  function Min2(n: nat): nat {
    if n < 2 then n else 2
  }

  lemma LeadingSpacesIs(t: string, n: nat)
    requires n <= |t| && forall i :: 0 <= i < n ==> IsSpace(t[i])
    requires n < |t| ==> !IsSpace(t[n])
    ensures LeadingSpaces(t) == n
  {
  }

  /** A whitespace character in front adds itself to the run. */
  lemma RunCons(c: char, t: string)
    requires IsSpace(c)
    ensures RunNewlines([c] + t) == (if c == '\n' then 1 else 0) + RunNewlines(t)
  {
    var s := [c] + t;
    assert s[1..] == t;
    assert s[..LeadingSpaces(s)] == [c] + t[..LeadingSpaces(t)];
  }

  /** What a collapse leaves of a run holds no line feed. */
  lemma RunAfterLastNewline(s: string)
    requires s != [] && s[0] == '\n'
    ensures RunNewlines(s[PastLastNewline(s)..]) == 0
  {
    var w := LeadingSpaces(s);
    var n := AfterLastNewline(s[..w]);
    var u := s[w - n..];
    assert PastLastNewline(s) == w - n;
    LeadingSpacesIs(u, n);
    assert u[..n] == s[..w][w - n..];
    assert '\n' !in u[..n];
  }

  /** A collapsed run is two line feeds followed by text whose leading run
      has none. */
  lemma CollapsedBound(rest: string)
    requires AtMostOneBlankLine(rest) && RunNewlines(rest) == 0
    ensures AtMostOneBlankLine("\n\n" + rest) && RunNewlines("\n\n" + rest) == 2
  {
    var r := "\n\n" + rest;
    assert r[1..] == ['\n'] + rest && r == ['\n'] + r[1..];
    RunCons('\n', rest);
    RunCons('\n', r[1..]);
    forall i | 0 <= i < |r| ensures RunAt(r, i) <= 2 {
      if i >= 2 {
        assert r[i..] == rest[i - 2..];
        assert RunAt(rest, i - 2) <= 2;
      } else if i == 1 {
        assert r[i..] == r[1..];
      }
    }
  }

  /** A character copied in front of collapsed text. */
  lemma CopiedBound(c: char, t: string, rest: string)
    requires AtMostOneBlankLine(rest) && RunNewlines(rest) == Min2(RunNewlines(t))
    requires c == '\n' ==> RunNewlines([c] + t) < 3
    ensures AtMostOneBlankLine([c] + rest) && RunNewlines([c] + rest) == Min2(RunNewlines([c] + t))
  {
    var r := [c] + rest;
    if IsSpace(c) {
      RunCons(c, t);
      RunCons(c, rest);
    } else {
      assert LeadingSpaces(r) == 0 && LeadingSpaces([c] + t) == 0;
    }
    forall i | 0 <= i < |r| ensures RunAt(r, i) <= 2 {
      if i >= 1 {
        assert r[i..] == rest[i - 1..];
        assert RunAt(rest, i - 1) <= 2;
      }
    }
  }

  /** After the clean-up no run holds three line feeds, and the run at the
      start keeps its line feeds up to two. */
  lemma {:induction false} CollapseBound(s: string)
    ensures AtMostOneBlankLine(CollapseBlankLines(s))
    ensures RunNewlines(CollapseBlankLines(s)) == Min2(RunNewlines(s))
    decreases |s|
  {
    if s != [] {
      if s[0] == '\n' && RunNewlines(s) >= 3 {
        var q := PastLastNewline(s);
        RunAfterLastNewline(s);
        CollapseBound(s[q..]);
        CollapsedBound(CollapseBlankLines(s[q..]));
      } else {
        CollapseBound(s[1..]);
        CollapseCopies(s);
        CopiedBound(s[0], s[1..], CollapseBlankLines(s[1..]));
      }
    }
  }

  /** A character that starts no collapsed run is copied. */
  lemma CollapseCopies(s: string)
    requires s != [] && !(s[0] == '\n' && RunNewlines(s) >= 3)
    ensures s == [s[0]] + s[1..]
    ensures CollapseBlankLines(s) == [s[0]] + CollapseBlankLines(s[1..])
  {
  }

  /** Text that already has at most one blank line anywhere is left as it is. */
  lemma {:induction false} CollapseKeepsTidyText(s: string)
    requires AtMostOneBlankLine(s)
    ensures CollapseBlankLines(s) == s
    decreases |s|
  {
    if s != [] {
      assert RunAt(s, 0) <= 2 && s[0..] == s;
      assert AtMostOneBlankLine(s[1..]) by {
        forall i | 0 <= i < |s[1..]| ensures RunAt(s[1..], i) <= 2 {
          assert s[1..][i..] == s[i + 1..];
          assert RunAt(s, i + 1) <= 2;
        }
      }
      CollapseKeepsTidyText(s[1..]);
    }
  }

  /** A prefix of a text has no more line feeds in its leading run. */
  lemma RunPrefix(t: string, m: nat)
    requires m <= |t|
    ensures RunNewlines(t[..m]) <= RunNewlines(t)
  {
    var u := t[..m];
    var a, b := LeadingSpaces(u), LeadingSpaces(t);
    assert u[..a] == t[..a];
    assert t[..b] == t[..a] + t[a..b];
  }

  /** A piece of a text cannot hold more line feeds in a run than the
      text does at the same place. */
  lemma PieceRunBound(s: string, a: nat, piece: string, i: nat)
    requires AtMostOneBlankLine(s) && a + |piece| <= |s| && piece == s[a..a + |piece|] && i < |piece|
    ensures RunAt(piece, i) <= 2
  {
    var t := s[a + i..];
    assert RunAt(s, a + i) <= 2;
    assert piece[i..] == t[..|piece| - i];
    RunPrefix(t, |piece| - i);
  }


  /** Trimming keeps the bound. */
  lemma TrimKeepsBound(s: string)
    requires AtMostOneBlankLine(s)
    ensures AtMostOneBlankLine(Trim(s))
  {
    PieceBound(s, LeadingSpaces(s), Trim(s));
  }

  /** A piece of a text keeps the text's bound. */
  lemma PieceBound(s: string, a: nat, piece: string)
    requires AtMostOneBlankLine(s) && a + |piece| <= |s| && piece == s[a..a + |piece|]
    ensures AtMostOneBlankLine(piece)
  {
    forall i | 0 <= i < |piece| ensures RunAt(piece, i) <= 2 {
      PieceRunBound(s, a, piece, i);
    }
  }

  /** `htmlToMarkdown(html)`: the passes in source order. The final
      `.replace(/^\s+|\s+$/g, '')` and `.trim()` both remove the outer
      whitespace, so together they are one `Trim`. */
  function HtmlToMarkdown(env: Env, html: string): (r: string)
    ensures html == [] ==> r == []
    ensures Trimmed(r) && AtMostOneBlankLine(r)
  {
    if html == [] then []
    else
      var tables := ConvertTables(env.passesBeforeTables(html));
      var text := DecodeEntities(StripTags(env.passesAfterTables(tables)));
      var collapsed := CollapseBlankLines(text);
      CollapseBound(text);
      TrimKeepsBound(collapsed);
      Trim(collapsed)
  }
}
