/** The two renderings of `src/processor/heading_processor.py` built on the detected
    headings: the rewrite of heading lines as ATX headings (`convert_to_markdown`) and
    the table of contents with its slug anchors (`get_table_of_contents`). */
module HeadingMarkdown {
  import opened Strings
  import opened HeadingShapes
  import opened Optional
  import opened Headings

  /** The class `[\d\.#\s]` of the prefix the heading text loses. */
  predicate IsNumberingChar(c: char) { IsDigit(c) || c == '.' || c == '#' || IsSpace(c) }

  /** `re.sub(r':$', '', u)`: a colon at the very end, or just before a final line
      feed, is dropped (there is at most one such colon). */
  function DropClosingColon(u: string): (r: string)
    ensures u == r || u == r + ":" || (|r| >= 1 && r[|r| - 1] == '\n' && u == r[..|r| - 1] + ":\n")
    ensures |u| >= 1 && u[|u| - 1] == ':' ==> u == r + ":"
    ensures forall c :: c in r ==> c in u
  {
    if |u| >= 1 && u[|u| - 1] == ':' then u[..|u| - 1]
    else if |u| >= 2 && u[|u| - 2] == ':' && u[|u| - 1] == '\n' then
      var r := u[..|u| - 2] + "\n";
      assert r[..|r| - 1] == u[..|u| - 2];
      r
    else u
  }

  /** The heading text without its numbering prefix and closing colon, as both
      renderings compute it. */
  function CleanHeadingText(t: string): (r: string)
    ensures r == [] || !IsNumberingChar(r[0]) || (r == "\n" && t[RunFrom(t, 0, IsNumberingChar)..] == ":\n")
    ensures var u := t[RunFrom(t, 0, IsNumberingChar)..];
      u == r || u == r + ":" || (|r| >= 1 && r[|r| - 1] == '\n' && u == r[..|r| - 1] + ":\n")
    ensures var u := t[RunFrom(t, 0, IsNumberingChar)..]; |u| >= 1 && u[|u| - 1] == ':' ==> u == r + ":"
    ensures forall c :: c in r ==> c in t
  {
    var u := t[RunFrom(t, 0, IsNumberingChar)..];
    DropClosingColon(u)
  }

  /** The slug characters `[\w\-]`. */
  predicate IsSlugChar(c: char) { IsWordChar(c) || c == '-' }

  /** `s.replace(' ', '-')`. */
  function SpacesToHyphens(s: string): (r: string)
    ensures |r| == |s|
    ensures forall i :: 0 <= i < |s| ==> r[i] == (if s[i] == ' ' then '-' else s[i])
  {
    if s == [] then [] else [if s[0] == ' ' then '-' else s[0]] + SpacesToHyphens(s[1..])
  }

  /** `re.sub(r'[^\w\-]', '', s)`: the slug characters of `s`, in order. */
  function KeepSlugChars(s: string): (r: string)
    ensures |r| <= |s|
    ensures forall i :: 0 <= i < |r| ==> IsSlugChar(r[i])
    ensures forall c :: c in r ==> c in s
    ensures (forall i :: 0 <= i < |s| ==> IsSlugChar(s[i])) ==> r == s
  {
    if s == [] then []
    else if IsSlugChar(s[0]) then [s[0]] + KeepSlugChars(s[1..])
    else KeepSlugChars(s[1..])
  }

  /** The anchor of a cleaned heading text: lower-cased, spaces turned into hyphens,
      everything but word characters and hyphens dropped. */
  function Slug(c: string): (a: string)
    ensures |a| <= |c|
    ensures forall i :: 0 <= i < |a| ==> IsSlugChar(a[i]) && !IsUpper(a[i])
  {
    var s := SpacesToHyphens(Lower(c));
    assert forall ch :: ch in s ==> !IsUpper(ch);
    var a := KeepSlugChars(s);
    assert forall i :: 0 <= i < |a| ==> a[i] in s;
    a
  }

  /** The slug one character contributes, on its own. */
  function SlugOfChar(c: char): string {
    if c == ' ' then "-" else if IsSlugChar(c) then [ToLower(c)] else []
  }

  /** The slug as a character-by-character translation. */
  function SlugByChar(s: string): string {
    if s == [] then [] else SlugOfChar(s[0]) + SlugByChar(s[1..])
  }

  /** The three passes of the anchor computation agree with the character-by-character
      translation. */
  lemma {:induction false} SlugIsByChar(s: string)
    ensures Slug(s) == SlugByChar(s)
  {
    if s != [] {
      SlugIsByChar(s[1..]);
      assert Lower(s) == [ToLower(s[0])] + Lower(s[1..]);
      var t := SpacesToHyphens(Lower(s));
      assert t == [t[0]] + SpacesToHyphens(Lower(s[1..]));
    }
  }

  /** The slug of a concatenation is the concatenation of the slugs. */
  lemma {:induction false} SlugAppend(a: string, b: string)
    ensures Slug(a + b) == Slug(a) + Slug(b)
  {
    SlugIsByChar(a + b);
    SlugIsByChar(a);
    SlugIsByChar(b);
    SlugByCharAppend(a, b);
  }

  lemma {:induction false} SlugByCharAppend(a: string, b: string)
    ensures SlugByChar(a + b) == SlugByChar(a) + SlugByChar(b)
  {
    if a != [] {
      assert (a + b)[1..] == a[1..] + b;
      SlugByCharAppend(a[1..], b);
    } else {
      assert a + b == b;
    }
  }

  /** An anchor is its own anchor. */
  lemma SlugIdempotent(c: string)
    ensures Slug(Slug(c)) == Slug(c)
  {
    SlugOfSlugChars(Slug(c));
  }

  /** The heading recorded for line `i`; `heading_positions` keeps the last one. */
  function HeadingAt(hs: seq<Heading>, i: int): (h: Option<Heading>)
    ensures h.Some? <==> i in Positions(hs)
    ensures h.Some? ==> h.value in hs && h.value.position == i
  {
    if hs == [] then None
    else
      var rest := HeadingAt(hs[1..], i);
      assert Positions(hs) == {hs[0].position} + Positions(hs[1..]) by {
        assert forall k :: 0 < k < |hs| ==> hs[k] == hs[1..][k - 1];
      }
      if rest.Some? then rest
      else if hs[0].position == i then Some(hs[0])
      else None
  }

  /** One output line of `convert_to_markdown`. */
  function RenderLine(line: string, h: Option<Heading>): string {
    if h.None? then line
    else RepeatChar('#', h.value.level) + " " + CleanHeadingText(Strip(line))
  }

  /** A rendered heading line is read back at the heading's level when the font
      metrics are absent. */
  lemma RenderedLevelReadBack(line: string, h: Heading)
    requires 1 <= h.level <= 6
    requires CleanHeadingText(Strip(line)) != [] && '\n' !in CleanHeadingText(Strip(line))
    requires |RenderLine(line, Some(h))| <= MaxHeadingLength
    ensures DetectHeadingLevel(RenderLine(line, Some(h)), None, false) == h.level
  {
    AtxLevel(h.level, CleanHeadingText(Strip(line)), None, false);
  }

  function RenderLines(lines: seq<string>, hs: seq<Heading>): (out: seq<string>)
    ensures |out| == |lines|
    ensures forall i :: 0 <= i < |lines| ==> out[i] == RenderLine(lines[i], HeadingAt(hs, i))
  {
    seq(|lines|, i requires 0 <= i < |lines| => RenderLine(lines[i], HeadingAt(hs, i)))
  }

  /** `convert_to_markdown`. */
  function HeadingsToMarkdown(text: string, fontInfo: map<int, (real, bool)>): (r: string)
    ensures text == [] || ExtractHeadings(text, fontInfo) == [] ==> r == text
  {
    if text == [] then text
    else
      var hs := ExtractHeadings(text, fontInfo);
      if hs == [] then text
      else Join(RenderLines(Split(text, '\n'), hs), "\n")
  }

  /** The output has the lines of the input: a line with no heading is unchanged, and
      a heading line becomes `#` repeated to the level, a space and the cleaned
      heading text. */
  lemma HeadingsToMarkdownLines(text: string, fontInfo: map<int, (real, bool)>)
    ensures var lines, out, hs := Split(text, '\n'), Split(HeadingsToMarkdown(text, fontInfo), '\n'), ExtractHeadings(text, fontInfo);
      && |out| == |lines|
      && (forall i :: 0 <= i < |lines| && i !in Positions(hs) ==> out[i] == lines[i])
      && (forall i :: 0 <= i < |lines| && i in Positions(hs) ==>
            out[i] == RepeatChar('#', HeadingAt(hs, i).value.level) + " " + CleanHeadingText(Strip(lines[i])))
  {
    var lines, hs := Split(text, '\n'), ExtractHeadings(text, fontInfo);
    if text != [] && hs != [] {
      RenderedLinesSplit(lines, hs);
    }
  }

  /** No rendered line holds a line feed, so splitting the joined output gives the
      rendered lines back. */
  lemma RenderedLinesSplit(lines: seq<string>, hs: seq<Heading>)
    requires |lines| >= 1
    requires forall i :: 0 <= i < |lines| ==> '\n' !in lines[i]
    ensures Split(Join(RenderLines(lines, hs), "\n"), '\n') == RenderLines(lines, hs)
  {
    var out := RenderLines(lines, hs);
    forall i | 0 <= i < |out|
      ensures '\n' !in out[i]
    {
      RenderLineOneLine(lines[i], HeadingAt(hs, i));
    }
    SplitJoin(out, '\n');
  }

  /** A rendered line stays on one line when its source line does. */
  lemma RenderLineOneLine(line: string, h: Option<Heading>)
    requires '\n' !in line
    ensures '\n' !in RenderLine(line, h)
  {
    if h.Some? {
      var c := CleanHeadingText(Strip(line));
      assert forall ch :: ch in Strip(line) ==> ch in line;
      assert '\n' !in c;
    }
  }

  const TocTitleLine: string := "# Table of Contents"
  const TocTitle: string := TocTitleLine + "\n"

  /** The text a table-of-contents entry shows. */
  function DisplayText(h: Heading): string {
    CleanHeadingText(Strip(h.text))
  }

  /** The link target of a table-of-contents entry. */
  function Anchor(h: Heading): (a: string)
    ensures forall i :: 0 <= i < |a| ==> IsSlugChar(a[i])
  {
    Slug(DisplayText(h))
  }

  /** `"  " * (level - 1)`, which is empty for a level below 2. */
  function Indent(h: Heading): (n: nat)
    ensures h.level >= 1 ==> n == 2 * (h.level - 1)
  {
    if h.level <= 1 then 0 else 2 * (h.level - 1)
  }

  /** A display text taken from a single-line heading holds no line feed. */
  lemma DisplayTextOneLine(h: Heading)
    ensures '\n' !in h.text ==> '\n' !in DisplayText(h)
  {
    assert forall ch :: ch in Strip(h.text) ==> ch in h.text;
  }

  /** The link part of an entry, after the indentation. */
  function EntryLink(c: string, a: string): (l: string)
    ensures |l| >= 3
    ensures '\n' !in c && (forall i :: 0 <= i < |a| ==> IsSlugChar(a[i])) ==> '\n' !in l
  {
    "- [" + c + "](#" + a + ")"
  }

  /** One entry of the table of contents. */
  function TocEntry(h: Heading): string {
    RepeatChar(' ', 2 * (h.level - 1)) + EntryLink(DisplayText(h), Anchor(h))
  }

  /** An entry is its indentation, then a Markdown link from the display text to the
      anchor; it stays on one line when the heading does. */
  lemma TocEntryShape(h: Heading)
    ensures var e := TocEntry(h);
      && |e| >= Indent(h) + 3
      && (forall i :: 0 <= i < Indent(h) ==> e[i] == ' ')
      && e[Indent(h)..] == EntryLink(DisplayText(h), Anchor(h))
      && ('\n' !in h.text ==> '\n' !in e)
  {
    DisplayTextOneLine(h);
    var e := TocEntry(h);
    assert e[Indent(h)..] == EntryLink(DisplayText(h), Anchor(h));
  }

  function TocEntries(hs: seq<Heading>): (es: seq<string>)
    ensures |es| == |hs|
    ensures forall k :: 0 <= k < |hs| ==> es[k] == TocEntry(hs[k])
  {
    seq(|hs|, k requires 0 <= k < |hs| => TocEntry(hs[k]))
  }

  /** `get_table_of_contents`. */
  function TableOfContents(hs: seq<Heading>): (r: string)
    ensures r == [] <==> hs == []
    ensures hs != [] ==> StartsWith(r, TocTitle)
  {
    if hs == [] then ""
    else
      var es := TocEntries(hs);
      JoinCons(TocTitle, es, "\n");
      StartsWithAppend(TocTitle, "\n", Join(es, "\n"));
      Join([TocTitle] + es, "\n")
  }

  lemma TitleOneLine()
    ensures '\n' !in TocTitleLine
  {
  }

  lemma Regroup(t: string, sep: string, j: string)
    ensures t + sep + sep + j == t + sep + ([] + sep + j)
  {
  }

  /** A first part ending in the separator joins like that part without it followed
      by an empty part. */
  lemma JoinSplitFirst(t: string, es: seq<string>, sep: string)
    requires es != []
    ensures Join([t + sep] + es, sep) == Join([t, ""] + es, sep)
  {
    JoinCons(t + sep, es, sep);
    JoinCons("", es, sep);
    assert [t, ""] + es == [t] + ([""] + es);
    JoinCons(t, [""] + es, sep);
    Regroup(t, sep, Join(es, sep));
  }

  /** The table is the join of its title line, a blank line and the entries. */
  lemma TocJoin(hs: seq<Heading>)
    requires hs != []
    ensures TableOfContents(hs) == Join([TocTitleLine, ""] + TocEntries(hs), "\n")
  {
    JoinSplitFirst(TocTitleLine, TocEntries(hs), "\n");
  }

  /** For headings on single lines, the table reads line by line as the title, a
      blank line and one entry per heading, in order. */
  lemma TocLines(hs: seq<Heading>)
    requires hs != []
    requires forall k :: 0 <= k < |hs| ==> '\n' !in hs[k].text
    ensures Split(TableOfContents(hs), '\n') == [TocTitleLine, ""] + TocEntries(hs)
  {
    var es := TocEntries(hs);
    var parts := [TocTitleLine, ""] + es;
    TocJoin(hs);
    TitleOneLine();
    forall k | 0 <= k < |parts|
      ensures '\n' !in parts[k]
    {
      if k >= 2 {
        TocEntryShape(hs[k - 2]);
      }
    }
    SplitJoin(parts, '\n');
  }

  /** A numbered heading with a closing colon: the entry shows the bare title and
      links to its lower-cased form (`"1.2 Results:"` shows `Results` and links to
      `results`). */
  lemma TocEntryExample(n: string, r: string, rest: string)
    requires n == "1.2 " && r == "R" && rest == "esults"
    ensures DisplayText(Heading(n + (r + rest) + ":", 2, 0, None, false)) == r + rest
    ensures Anchor(Heading(n + (r + rest) + ":", 2, 0, None, false)) == "r" + rest
  {
    assert !IsSpace(n[0]) && forall i :: 0 <= i < |n| ==> IsNumberingChar(n[i]);
    assert !IsNumberingChar((r + rest)[0]) && !IsSpace((r + rest)[0]);
    CleanNumbered(n, r + rest);
    CapitalSlug(r, rest);
  }

  /** A numbering prefix and a closing colon around a title are both dropped. */
  lemma CleanNumbered(n: string, t: string)
    requires n != [] && !IsSpace(n[0]) && forall i :: 0 <= i < |n| ==> IsNumberingChar(n[i])
    requires t != [] && !IsNumberingChar(t[0])
    ensures CleanHeadingText(Strip(n + t + ":")) == t
  {
    var s := n + t + ":";
    StripOfTrimmed(s);
    assert s[|n|] == t[0];
    RunFromIs(s, 0, |n|, IsNumberingChar);
    assert s[|n|..] == t + ":";
    var c := CleanHeadingText(s);
    assert t + ":" == c + ":";
    assert t == (t + ":")[..|t|] == (c + ":")[..|c|] == c;
  }

  lemma CapitalSlug(r: string, rest: string)
    requires r == "R" && rest == "esults"
    ensures Slug(r + rest) == "r" + rest
  {
    SlugAppend(r, rest);
    SlugOfSlugChars(rest);
    assert Lower(r) == "r";
    assert SpacesToHyphens("r") == "r";
  }

  /** A text of lower-case slug characters is its own slug. */
  lemma SlugOfSlugChars(s: string)
    requires forall i :: 0 <= i < |s| ==> IsSlugChar(s[i]) && !IsUpper(s[i])
    ensures Slug(s) == s
  {
    assert Lower(s) == s;
    assert SpacesToHyphens(s) == s;
  }
}
