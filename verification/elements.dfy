/** The element assembler of `pdf2md-core/src/processor/markdown_assembler.py`: the
    document clean-up of `assemble_document`, the order `_sort_elements` puts elements
    in, and the per-type renderers, including the list stack that nested list items
    share. */
module ElementAssembler {
  import opened Strings
  import opened Optional
  import opened Sorting
  import opened LineCleanup

  // ---------------------------------------------------------------------------
  // `assemble_document`

  /** An item of `pages`: something that is not a dict, or a dict whose `markdown`
      entry is missing or `None` (both `None` here) or a string. */
  datatype Page = NotADict | PageDict(markdown: Option<string>)

  /** The per-line clean-up: the `[%\s]+$` substitution and then `rstrip()`. */
  function LineClean(l: string): string { RStrip(DropTrailingJunk(l)) }

  predicate IsPercent(c: char) { c == '%' }

  /** The regex `\s*%*\s*` matches the whole of `t`, tried greedily: the leading
      whitespace run, then the `%` run after it, and whitespace to the end. */
  predicate TailShape(t: string) {
    var a := LeadingSpaces(t);
    var b := a + RunFrom(t, a, IsPercent);
    AllSpace(t[b..])
  }

  predicate AllPercent(t: string) { forall k :: 0 <= k < |t| ==> t[k] == '%' }

  /** The greedy reading is exact: `t` is whitespace, then `%` signs, then whitespace,
      for some split, exactly when the greedy split works. */
  lemma TailShapeIff(t: string)
    ensures TailShape(t) <==>
      exists a, b :: 0 <= a <= b <= |t| && AllSpace(t[..a]) && AllPercent(t[a..b]) && AllSpace(t[b..])
  {
    if TailShape(t) {
      GreedySplit(t);
    }
    if exists a, b :: 0 <= a <= b <= |t| && AllSpace(t[..a]) && AllPercent(t[a..b]) && AllSpace(t[b..]) {
      var a, b :| 0 <= a <= b <= |t| && AllSpace(t[..a]) && AllPercent(t[a..b]) && AllSpace(t[b..]);
      SplitIsGreedy(t, a, b);
    }
  }

  /** The greedy split is a split. */
  lemma GreedySplit(t: string)
    requires TailShape(t)
    ensures var a := LeadingSpaces(t);
      AllPercent(t[a..a + RunFrom(t, a, IsPercent)])
  {
    var a0 := LeadingSpaces(t);
    var b0 := a0 + RunFrom(t, a0, IsPercent);
    forall k | 0 <= k < b0 - a0 ensures t[a0..b0][k] == '%' {
      assert t[a0..b0][k] == t[a0 + k];
    }
  }

  /** Any split makes the greedy split work. */
  lemma SplitIsGreedy(t: string, a: nat, b: nat)
    requires a <= b <= |t| && AllSpace(t[..a]) && AllPercent(t[a..b]) && AllSpace(t[b..])
    ensures TailShape(t)
  {
    if a == b {
      forall k | 0 <= k < |t|
        ensures IsSpace(t[k])
      {
        if k < a {
          assert t[k] == t[..a][k];
        } else {
          assert t[k] == t[b..][k - b];
        }
      }
      assert t[..|t|] == t;
      LeadingSpacesIs(t, |t|);
    } else {
      assert t[a] == t[a..b][0];
      LeadingSpacesIs(t, a);
      forall k | a <= k < b
        ensures IsPercent(t[k])
      {
        assert t[k] == t[a..b][k - a];
      }
      assert b < |t| ==> t[b] == t[b..][0];
      RunFromIs(t, a, b, IsPercent);
    }
  }

  /** The leftmost start at or after `i` from which `\s*%*\s*$` matches. (A match
      that ends before a final line feed could be extended over it, so allowing `$`
      there moves no start.) */
  function TailStart(s: string, i: nat): (j: nat)
    requires i <= |s|
    ensures i <= j <= |s| && TailShape(s[j..])
    ensures forall k :: i <= k < j ==> !TailShape(s[k..])
    decreases |s| - i
  {
    if TailShape(s[i..]) then i
    else
      assert i < |s|;
      TailStart(s, i + 1)
  }

  /** `re.sub(r'\s*%*\s*$', '', content).rstrip()`. */
  function FinalCleanup(content: string): (r: string)
    ensures |r| <= |content| && r == content[..|r|]
    ensures r == [] || !IsSpace(r[|r| - 1])
  {
    var j := TailStart(content, 0);
    RStrip(content[..j])
  }

  /** A non-empty text that matches the tail pattern ends in `%` or whitespace. */
  lemma TailShapeEnd(t: string)
    requires t != [] && TailShape(t)
    ensures IsJunk(t[|t| - 1])
  {
    var a := LeadingSpaces(t);
    var b := a + RunFrom(t, a, IsPercent);
    if b < |t| {
      assert t[|t| - 1] == t[b..][|t| - 1 - b];
    } else if a < b {
      assert IsPercent(t[b - 1]);
    } else {
      assert t[|t| - 1] == t[..a][|t| - 1];
    }
  }

  /** The clean-up leaves a text alone when its last character is neither `%` nor
      whitespace. */
  lemma CleanupKeepsClean(s: string)
    requires s != [] && !IsJunk(s[|s| - 1])
    ensures FinalCleanup(s) == s
  {
    forall k | 0 <= k < |s|
      ensures !TailShape(s[k..])
    {
      if TailShape(s[k..]) {
        TailShapeEnd(s[k..]);
      }
    }
    assert TailStart(s, 0) == |s|;
    assert s[..|s|] == s;
    assert SpacesBefore(s, |s|) == 0;
  }

  /** The clean-up never removes a leading `#`. */
  lemma CleanupKeepsHash(s: string)
    requires s != [] && s[0] == '#'
    ensures FinalCleanup(s) != [] && FinalCleanup(s)[0] == '#'
  {
    assert LeadingSpaces(s) == 0;
    assert RunFrom(s, 0, IsPercent) == 0;
    assert !AllSpace(s[0..]) by { assert s[0..][0] == '#'; }
    var j := TailStart(s, 0);
    assert j >= 1;
    var x := s[..j];
    assert !AllSpace(x) by { assert x[0] == '#'; }
  }

  /** The list `lines` just before it is joined: the kept lines, or the placeholder
      when there are none, with the first one made a heading. */
  function DocumentLines(text: string): (lines: seq<string>)
    ensures lines != []
  {
    CleanLines(text, LineClean)
  }

  /** `assemble_document`. Only the first page is read. */
  function AssembleDocument(pages: seq<Page>): (r: string)
    ensures r == [] || !IsSpace(r[|r| - 1])
  {
    if pages == [] || pages[0].NotADict? then ""
    else
      var text := pages[0].markdown.GetOr("");
      if text == [] then "" else FinalCleanup(Join(DocumentLines(text), "\n\n"))
  }

  /** No page, a first page that is not a dict, or one without Markdown gives the
      empty document; pages after the first never matter. */
  lemma AssembleFirstPageOnly(pages: seq<Page>)
    ensures pages == [] || pages[0].NotADict? || pages[0].markdown.GetOr("") == [] ==> AssembleDocument(pages) == ""
    ensures pages != [] ==> AssembleDocument(pages) == AssembleDocument([pages[0]])
  {
  }

  /** The trailing `rstrip()` after the substitution changes nothing, so the lines are
      cleaned exactly as the response parser cleans them. */
  lemma LineCleanIsDrop(raw: seq<string>, first: bool)
    ensures Collect(raw, LineClean, first) == Collect(raw, DropTrailingJunk, first)
  {
    forall l ensures LineClean(l) == DropTrailingJunk(l) {
      RStripAfterDrop(l);
    }
    CollectSameClean(raw, LineClean, DropTrailingJunk, first);
  }

  /** For Markdown with a non-blank line, the lines joined before the final clean-up
      are its non-blank lines in order, each stripped and cut of its trailing
      `%`/whitespace run, the first one made a heading. */
  lemma DocumentLinesOfText(text: string)
    requires !AllSpace(text)
    ensures var nb := NonBlank(Split(text, '\n'));
      |DocumentLines(text)| == |nb| &&
      DocumentLines(text)[0] == Headed(DropTrailingJunk(Strip(nb[0]))) &&
      forall k :: 1 <= k < |nb| ==> DocumentLines(text)[k] == DropTrailingJunk(Strip(nb[k]))
  {
    CleanLinesOf(text, LineClean);
    forall l ensures LineClean(l) == DropTrailingJunk(l) {
      RStripAfterDrop(l);
    }
  }

  lemma JoinHead(parts: seq<string>, sep: string)
    requires parts != [] && parts[0] != []
    ensures Join(parts, sep) != [] && Join(parts, sep)[0] == parts[0][0]
  {
    if |parts| > 1 {
      assert Join(parts, sep) == parts[0] + sep + Join(parts[1..], sep);
    }
  }

  /** Markdown with any content gives a non-empty document that starts with `#`. */
  lemma AssembleStartsWithHash(pages: seq<Page>)
    requires pages != [] && pages[0].PageDict? && pages[0].markdown.GetOr("") != []
    ensures AssembleDocument(pages) != [] && AssembleDocument(pages)[0] == '#'
  {
    var lines := DocumentLines(pages[0].markdown.GetOr(""));
    assert StartsWith(lines[0], "# ");
    assert lines[0][0] == lines[0][..2][0];
    JoinHead(lines, "\n\n");
    CleanupKeepsHash(Join(lines, "\n\n"));
  }

  lemma PlaceholderDocument(u: string)
    requires StartsWith(u, "# ") && !IsJunk(u[|u| - 1])
    ensures FinalCleanup(Join([u], "\n\n")) == u
  {
    CleanupKeepsClean(u);
  }

  /** Markdown whose lines are all blank gives the placeholder heading. */
  lemma AssembleUntitled(pages: seq<Page>)
    requires pages != [] && pages[0].PageDict? && pages[0].markdown.GetOr("") != []
    requires AllSpace(pages[0].markdown.GetOr(""))
    ensures AssembleDocument(pages) == Untitled
  {
    BlankCleanLines(pages[0].markdown.GetOr(""), LineClean);
    var u := Untitled;
    assert StartsWith(u, "# ") && !IsJunk(u[|u| - 1]);
    PlaceholderDocument(u);
  }

  // ---------------------------------------------------------------------------
  // `_sort_elements` and `_get_element_priority`

  /** An element dict, as far as the renderers and the sort read it; `y` is `None`
      when `position` or its `y` entry is missing. */
  datatype Element = Element(kind: string, content: string, y: Option<int>)

  /** The priority table, 99 for a type it does not list. */
  function Priority(kind: string): (p: int)
    ensures 0 <= p <= 5 || p == 99
  {
    if kind == "heading" then 0
    else if kind == "text" then 1
    else if kind == "list" then 2
    else if kind == "table" then 3
    else if kind == "equation" then 4
    else if kind == "image" then 5
    else 99
  }

  /** `x.get('position', {}).get('y', 0)`. */
  function Y(e: Element): int { e.y.GetOr(0) }

  /** The tuple key `(y, priority)` as one integer; the priority is below 100. */
  function SortKey(e: Element): int { Y(e) * 100 + Priority(e.kind) }

  /** The integer key orders elements exactly as the tuple does, and two keys are
      equal exactly when both components are. */
  lemma SortKeyIsTuple(a: Element, b: Element)
    ensures SortKey(a) <= SortKey(b) <==>
      Y(a) < Y(b) || (Y(a) == Y(b) && Priority(a.kind) <= Priority(b.kind))
    ensures SortKey(a) == SortKey(b) <==> Y(a) == Y(b) && Priority(a.kind) == Priority(b.kind)
  {
  }

  /** `_sort_elements`: Python's stable `sorted`. */
  function SortElements(els: seq<Element>): seq<Element> {
    SortByKey(els, SortKey)
  }

  /** The sorted elements are the input elements, ordered by `y` and then by type
      priority. */
  lemma SortElementsOrder(els: seq<Element>)
    ensures multiset(SortElements(els)) == multiset(els)
    ensures forall i, j :: 0 <= i < j < |SortElements(els)| ==>
      Y(SortElements(els)[i]) < Y(SortElements(els)[j]) ||
      (Y(SortElements(els)[i]) == Y(SortElements(els)[j]) &&
       Priority(SortElements(els)[i].kind) <= Priority(SortElements(els)[j].kind))
  {
    var s := SortElements(els);
    assert SortedBy(s, SortKey);
    forall i, j | 0 <= i < j < |s|
      ensures Y(s[i]) < Y(s[j]) || (Y(s[i]) == Y(s[j]) && Priority(s[i].kind) <= Priority(s[j].kind))
    {
      assert SortKey(s[i]) <= SortKey(s[j]);
      SortKeyIsTuple(s[i], s[j]);
    }
  }

  /** Elements with equal `y` and equal priority keep their input order. */
  lemma SortElementsStable(els: seq<Element>, y: int, p: int)
    requires 0 <= p < 100
    ensures WithKey(SortElements(els), SortKey, y * 100 + p) == WithKey(els, SortKey, y * 100 + p)
  {
    SortByKeyStable(els, SortKey, y * 100 + p);
  }

  // ---------------------------------------------------------------------------
  // The renderers

  /** `re.sub(r'%$', '', t)`: a `%` at the very end, or just before a final line
      feed, is removed; there is at most one such `%`. */
  function DropFinalPercent(t: string): (r: string)
    ensures |r| <= |t|
  {
    var n := |t|;
    if n >= 1 && t[n - 1] == '%' then t[..n - 1]
    else if n >= 2 && t[n - 1] == '\n' && t[n - 2] == '%' then t[..n - 2] + "\n"
    else t
  }

  /** `_process_text`. The three inline substitutions (`**…**`, `*…*`, `` `…` ``)
      rewrite each match to itself, so they leave the text as it is. */
  function ProcessText(content: string): string {
    var t := Strip(content);
    if t == [] then [] else Strip(DropFinalPercent(t))
  }

  /** `_process_heading`. */
  function ProcessHeading(content: string): string {
    var t := Strip(content);
    if t == [] then [] else Headed(Strip(DropFinalPercent(t)))
  }

  /** A stripped text never ends in a line feed, so only a final `%` goes. */
  lemma DropFinalPercentStripped(t: string)
    requires t != [] && !IsSpace(t[|t| - 1])
    ensures DropFinalPercent(t) == if t[|t| - 1] == '%' then t[..|t| - 1] else t
  {
  }

  /** Text renders to nothing exactly when it strips to nothing or to a lone `%`;
      otherwise it is the stripped text less a final `%`, stripped again, and text
      that is already stripped and does not end in `%` passes through unchanged. */
  lemma ProcessTextSpec(content: string)
    ensures ProcessText(content) == [] <==> Strip(content) == [] || Strip(content) == "%"
    ensures Strip(content) != [] && Strip(content)[|Strip(content)| - 1] != '%' ==>
      ProcessText(content) == Strip(content)
  {
    var t := Strip(content);
    if t != [] {
      DropFinalPercentStripped(t);
      if t[|t| - 1] == '%' {
        var u := t[..|t| - 1];
        if |t| > 1 {
          assert !IsSpace(u[0]);
          assert !AllSpace(u);
        } else {
          assert t == "%";
        }
      } else {
        StripOfTrimmed(t);
      }
    }
  }

  /** A heading renders to nothing exactly when its content is blank, otherwise to a
      line that starts with `"# "`. */
  lemma ProcessHeadingSpec(content: string)
    ensures ProcessHeading(content) == [] <==> AllSpace(content)
    ensures !AllSpace(content) ==> StartsWith(ProcessHeading(content), "# ")
  {
  }

  /** A stripped heading line that is already marked and does not end in `%` passes
      through unchanged. */
  lemma ProcessHeadingKeeps(content: string)
    requires Strip(content) == content && StartsWith(content, "# ") && content[|content| - 1] != '%'
    ensures ProcessHeading(content) == content
  {
    DropFinalPercentStripped(content);
    StripOfTrimmed(content);
  }

  /** `_process_equation`. */
  function ProcessEquation(content: string, inline: bool): string {
    var e := Strip(content);
    if inline then "$" + e + "$" else "$$" + e + "$$"
  }

  /** The delimiters are one `$` inline and two otherwise, and what they enclose is
      the stripped equation. */
  lemma ProcessEquationSpec(content: string, inline: bool)
    ensures var r, d := ProcessEquation(content, inline), if inline then 1 else 2;
      |r| == |Strip(content)| + 2 * d &&
      r[..d] == RepeatChar('$', d) && r[|r| - d..] == RepeatChar('$', d) &&
      r[d..|r| - d] == Strip(content)
  {
    assert RepeatChar('$', 1) == "$";
    assert RepeatChar('$', 2) == "$$";
  }

  /** The content of a table element: a string that is already a table, or rows. */
  datatype TableContent = Formatted(text: string) | Rows(rows: seq<seq<string>>)

  /** `f"| {' | '.join(cells)} |"`. */
  function Row(cells: seq<string>): string { "| " + Join(cells, " | ") + " |" }

  /** `['---'] * k`. */
  function SeparatorCells(k: nat): (r: seq<string>)
    ensures |r| == k
  {
    seq(k, _ => "---")
  }

  /** The lines after the header and the separator: one per body row, or one empty
      line when there is no body row. */
  function BodyLines(rows: seq<seq<string>>): (r: seq<string>)
    ensures |r| == |rows|
  {
    seq(|rows|, i requires 0 <= i < |rows| => Row(rows[i]))
  }

  /** `_process_table`. */
  function ProcessTable(content: TableContent): string {
    match content
    case Formatted(text) => text
    case Rows(rows) =>
      if rows == [] then ""
      else
        Row(rows[0]) + "\n" + Row(SeparatorCells(|rows[0]|)) + "\n" + Join(BodyLines(rows[1..]), "\n")
  }

  /** A cell-free separator or a row without line feeds stays on one line. */
  lemma RowOneLine(cells: seq<string>)
    requires forall k :: 0 <= k < |cells| ==> '\n' !in cells[k]
    ensures '\n' !in Row(cells)
  {
    JoinAvoids(cells, " | ", '\n');
  }

  /** When no cell holds a line feed, the table is the header line, the separator
      line, and then one line per body row, or a final empty line when there is no
      body row. */
  lemma TableLines(rows: seq<seq<string>>)
    requires rows != []
    requires forall i, k :: 0 <= i < |rows| && 0 <= k < |rows[i]| ==> '\n' !in rows[i][k]
    ensures Split(ProcessTable(Rows(rows)), '\n') ==
      [Row(rows[0]), Row(SeparatorCells(|rows[0]|))] + (if |rows| == 1 then [""] else BodyLines(rows[1..]))
  {
    var lines := [Row(rows[0]), Row(SeparatorCells(|rows[0]|))] + (if |rows| == 1 then [""] else BodyLines(rows[1..]));
    TableJoin(rows);
    TableLinesOneLine(rows);
    SplitJoin(lines, '\n');
  }

  /** The table text is its lines joined by line feeds. */
  lemma TableJoin(rows: seq<seq<string>>)
    requires rows != []
    ensures ProcessTable(Rows(rows)) ==
      Join([Row(rows[0]), Row(SeparatorCells(|rows[0]|))] + (if |rows| == 1 then [""] else BodyLines(rows[1..])), "\n")
  {
    var tail := if |rows| == 1 then [""] else BodyLines(rows[1..]);
    assert Join(BodyLines(rows[1..]), "\n") == Join(tail, "\n");
    JoinTwoCons(Row(rows[0]), Row(SeparatorCells(|rows[0]|)), tail, "\n");
  }

  lemma TableLinesOneLine(rows: seq<seq<string>>)
    requires rows != []
    requires forall i, k :: 0 <= i < |rows| && 0 <= k < |rows[i]| ==> '\n' !in rows[i][k]
    ensures var lines := [Row(rows[0]), Row(SeparatorCells(|rows[0]|))] + (if |rows| == 1 then [""] else BodyLines(rows[1..]));
      forall i :: 0 <= i < |lines| ==> '\n' !in lines[i]
  {
    var head := [Row(rows[0]), Row(SeparatorCells(|rows[0]|))];
    var tail := if |rows| == 1 then [""] else BodyLines(rows[1..]);
    RowOneLine(rows[0]);
    RowOneLine(SeparatorCells(|rows[0]|));
    forall i | 0 <= i < |tail|
      ensures '\n' !in tail[i]
    {
      if |rows| > 1 {
        assert tail[i] == Row(rows[1..][i]);
        assert rows[1..][i] == rows[i + 1];
        RowOneLine(rows[i + 1]);
      }
    }
    forall i | 0 <= i < |head + tail|
      ensures '\n' !in (head + tail)[i]
    {
      if i >= 2 {
        assert (head + tail)[i] == tail[i - 2];
      }
    }
  }

  /** The number of `|` in a joined row of cells without `|`. */
  lemma {:induction false} BarsInJoin(cells: seq<string>)
    requires cells != []
    requires forall k :: 0 <= k < |cells| ==> '|' !in cells[k]
    ensures CountChar(Join(cells, " | "), '|') == |cells| - 1
  {
    if |cells| > 1 {
      BarsInJoin(cells[1..]);
      CountCharAppend(cells[0], " | ", '|');
      CountCharAppend(cells[0] + " | ", Join(cells[1..], " | "), '|');
      assert CountChar(" | ", '|') == 1;
    } else {
      assert CountChar(cells[0], '|') == 0;
    }
  }

  lemma BarsInRow(cells: seq<string>)
    requires cells != []
    requires forall k :: 0 <= k < |cells| ==> '|' !in cells[k]
    ensures CountChar(Row(cells), '|') == |cells| + 1
  {
    BarsInJoin(cells);
    CountCharAppend("| ", Join(cells, " | "), '|');
    CountCharAppend("| " + Join(cells, " | "), " |", '|');
    assert CountChar("| ", '|') == 1;
    assert CountChar(" |", '|') == 1;
  }

  /** The separator line has as many `---` cells as the header has cells, so the two
      lines carry the same number of `|` when no header cell holds one. */
  lemma SeparatorMatchesHeader(header: seq<string>)
    requires header != []
    requires forall k :: 0 <= k < |header| ==> '|' !in header[k]
    ensures |SeparatorCells(|header|)| == |header|
    ensures CountChar(Row(SeparatorCells(|header|)), '|') == CountChar(Row(header), '|')
  {
    var sep := SeparatorCells(|header|);
    assert forall k :: 0 <= k < |sep| ==> sep[k] == "---";
    BarsInRow(header);
    BarsInRow(sep);
  }

  /** A string table passes through and an empty row list renders to nothing. */
  lemma TableEdgeCases(text: string)
    ensures ProcessTable(Formatted(text)) == text
    ensures ProcessTable(Rows([])) == ""
  {
  }

  /** `_process_list` on the shared `list_stack`: pop down to `level`, push
      `ordered` up to it, then render the item. A negative level pops the stack empty
      and then pops the empty list, which raises; the failure is `None`. */
  method ProcessList(stack: seq<bool>, level: int, ordered: bool, content: string)
    returns (stack': seq<bool>, line: Option<string>)
    ensures level < 0 ==> stack' == [] && line.None?
    ensures level >= 0 ==> |stack'| == level
    ensures level >= 0 ==> forall k :: 0 <= k < level ==> stack'[k] == if k < |stack| then stack[k] else ordered
    ensures level >= 0 ==> line == Some(RepeatChar(' ', 2 * level) + (if ordered then IntToString(level) + "." else "-") + " " + Strip(content))
  {
    stack' := stack;
    while |stack'| > level
      invariant |stack'| <= |stack| && stack' == stack[..|stack'|]
      invariant |stack'| == |stack| || |stack'| >= level
      decreases |stack'|
    {
      if stack' == [] {
        return [], None;
      }
      stack' := stack'[..|stack'| - 1];
    }
    while |stack'| < level
      invariant |stack'| <= level
      invariant forall k :: 0 <= k < |stack'| ==> stack'[k] == if k < |stack| then stack[k] else ordered
      decreases level - |stack'|
    {
      stack' := stack' + [ordered];
    }
    var prefix := RepeatChar(' ', 2 * level);
    var marker := if ordered then IntToString(|stack'|) + "." else "-";
    line := Some(prefix + marker + " " + Strip(content));
  }
}
