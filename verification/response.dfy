/** `_parse_response` of `pdf2md-core/src/processor/gemini_integration.py`: the text of
    a model response cleaned into Markdown whose first line is a level-one heading,
    and one element per kept line. */
module ResponseParser {
  import opened Strings
  import opened LineCleanup

  /** The element `type`: the strings `'heading'` and `'text'`. */
  datatype Kind = Heading | Text

  /** One item of `elements`: its `type`, its `content` and its `position`. */
  datatype ParsedElement = ParsedElement(kind: Kind, content: string, x: int, y: int)

  /** The returned dict. */
  datatype Parsed = Parsed(markdown: string, elements: seq<ParsedElement>)

  /** The list `lines` after the loop and the two checks that follow it. */
  function ResponseLines(response: string): (lines: seq<string>)
    ensures lines != []
    ensures StartsWith(lines[0], "# ")
  {
    var text := Strip(response);
    CleanLines(if text == [] then Untitled else text, DropTrailingJunk)
  }

  /** `'heading' if line.startswith('#') else 'text'`. */
  function KindOf(line: string): Kind {
    if StartsWith(line, "#") then Heading else Text
  }

  /** One element per line, at `x = 0` and `y = 20 * i`. */
  function ElementsOf(lines: seq<string>): (es: seq<ParsedElement>)
    ensures |es| == |lines|
  {
    seq(|lines|, i requires 0 <= i < |lines| => ParsedElement(KindOf(lines[i]), lines[i], 0, 20 * i))
  }

  /** `_parse_response`. */
  function ParseResponse(response: string): Parsed {
    var lines := ResponseLines(response);
    Parsed(Join(lines, "\n\n"), ElementsOf(lines))
  }

  /** The contents of the elements. */
  function Contents(es: seq<ParsedElement>): (r: seq<string>)
    ensures |r| == |es|
  {
    seq(|es|, i requires 0 <= i < |es| => es[i].content)
  }

  lemma JoinStartsWith(parts: seq<string>, sep: string)
    requires parts != []
    ensures StartsWith(Join(parts, sep), parts[0])
  {
    if |parts| > 1 {
      StartsWithAppend(parts[0], sep, Join(parts[1..], sep));
    } else {
      assert parts[0][..|parts[0]|] == parts[0];
    }
  }

  /** The elements built from heading-first lines are those lines in order, one per
      line, 20 units apart, each a heading exactly when its line starts with `#`, the
      first one a heading; joined by blank lines they give the Markdown, which starts
      with the first line. */
  lemma ElementsAgree(lines: seq<string>)
    requires lines != [] && StartsWith(lines[0], "# ")
    ensures var es := ElementsOf(lines);
      StartsWith(Join(lines, "\n\n"), lines[0]) && es[0].kind == Heading &&
      Join(Contents(es), "\n\n") == Join(lines, "\n\n") &&
      forall i :: 0 <= i < |es| ==>
        es[i].content == lines[i] && es[i].x == 0 && es[i].y == 20 * i &&
        (es[i].kind == Heading <==> StartsWith(lines[i], "#"))
  {
    JoinStartsWith(lines, "\n\n");
    assert Contents(ElementsOf(lines)) == lines;
    assert lines[0][..1] == lines[0][..2][..1];
  }

  /** The Markdown is never empty and starts with a level-one heading marker; the
      first element is a heading; the elements are the lines of the Markdown in
      order, one per line, 20 units apart, each a heading exactly when its line starts
      with `#`. */
  lemma ParsedAgree(response: string)
    ensures var p := ParseResponse(response);
      StartsWith(p.markdown, "# ") && p.elements[0].kind == Heading &&
      Join(Contents(p.elements), "\n\n") == p.markdown &&
      forall i :: 0 <= i < |p.elements| ==>
        p.elements[i].x == 0 && p.elements[i].y == 20 * i &&
        (p.elements[i].kind == Heading <==> StartsWith(p.elements[i].content, "#"))
  {
    var lines := ResponseLines(response);
    var m := Join(lines, "\n\n");
    assert ParseResponse(response) == Parsed(m, ElementsOf(lines));
    ElementsAgree(lines);
    StartsWithPrefix(m, lines[0], "# ");
  }

  /** For a response with content, the lines are its non-blank lines in order, each
      stripped and cut of its trailing `%`/whitespace run, the first one made a
      heading. */
  lemma LinesOfResponse(response: string)
    requires !AllSpace(response)
    ensures var nb := NonBlank(Split(Strip(response), '\n'));
      |ResponseLines(response)| == |nb| &&
      ResponseLines(response)[0] == Headed(DropTrailingJunk(Strip(nb[0]))) &&
      forall k :: 1 <= k < |nb| ==> ResponseLines(response)[k] == DropTrailingJunk(Strip(nb[k]))
  {
    CleanLinesOf(Strip(response), DropTrailingJunk);
  }

  /** A single line that is already clean comes out of the loop unchanged. */
  lemma CleanLineKept(u: string)
    requires '\n' !in u && u != [] && !IsSpace(u[0]) && !IsJunk(u[|u| - 1]) && StartsWith(u, "# ")
    ensures Collect(Split(u, '\n'), DropTrailingJunk, true) == [u]
  {
    SplitJoin([u], '\n');
    assert Join([u], "\n") == u;
    StripOfTrimmed(u);
    assert DropTrailingJunk(u) == u;
    var raw := [u];
    assert !AllSpace(u);
    CollectKeep(raw, DropTrailingJunk, true);
    assert raw[1..] == [];
  }

  /** A blank response yields the placeholder as its only line. */
  lemma BlankResponseLines(response: string)
    requires AllSpace(response)
    ensures ResponseLines(response) == [Untitled]
  {
    var u := Untitled;
    assert '\n' !in u && !IsSpace(u[0]) && !IsJunk(u[|u| - 1]) && StartsWith(u, "# ");
    CleanLineKept(u);
  }

  /** A single heading line makes a single heading element. */
  lemma OneLine(u: string)
    requires StartsWith(u, "# ")
    ensures Join([u], "\n\n") == u
    ensures ElementsOf([u]) == [ParsedElement(Heading, u, 0, 0)]
  {
    assert u[..1] == u[..2][..1];
  }

  /** An empty or all-whitespace response gives the placeholder heading and one
      heading element. */
  lemma EmptyResponse(response: string)
    requires AllSpace(response)
    ensures ParseResponse(response).markdown == Untitled
    ensures ParseResponse(response).elements == [ParsedElement(Heading, Untitled, 0, 0)]
  {
    BlankResponseLines(response);
    OneLine(ResponseLines(response)[0]);
  }
}
