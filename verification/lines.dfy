/** The line clean-up shared by `_parse_response` of
    `pdf2md-core/src/processor/gemini_integration.py` and `assemble_document` of
    `pdf2md-core/src/processor/markdown_assembler.py`: split at line feeds, drop the
    blank lines, strip the others and cut their trailing `%`/whitespace run, and make
    the first kept line a level-one heading. */
module LineCleanup {
  import opened Strings

  /** The placeholder line used when nothing is kept. */
  const Untitled := "# Untitled Document"

  /** A character of the class `[%\s]`. */
  predicate IsJunk(c: char) { c == '%' || IsSpace(c) }

  /** `re.sub(r'[%\s]+$', '', s)`: the leftmost match is the longest run of `%` and
      whitespace that reaches the end, and it is removed. */
  function DropTrailingJunk(s: string): (r: string)
    ensures |r| <= |s| && r == s[..|r|]
    ensures forall k :: |r| <= k < |s| ==> IsJunk(s[k])
    ensures r == [] || !IsJunk(r[|r| - 1])
  {
    if s != [] && IsJunk(s[|s| - 1]) then DropTrailingJunk(s[..|s| - 1]) else s
  }

  /** The cut leaves no trailing whitespace, so the `rstrip()` that may follow it
      changes nothing. */
  lemma RStripAfterDrop(s: string)
    ensures RStrip(DropTrailingJunk(s)) == DropTrailingJunk(s)
  {
    var r := DropTrailingJunk(s);
    if r != [] {
      assert TrailingSpaces(r) == 0;
    }
  }

  /** `f"# {line}"` unless the line already starts with `"# "`. */
  function Headed(line: string): (r: string)
    ensures StartsWith(r, "# ")
    ensures StartsWith(line, "# ") ==> r == line
  {
    if StartsWith(line, "# ") then line else "# " + line
  }

  /** The loop over `text.split('\n')` from a given state of `first_line`: a line
      that strips to nothing is skipped, any other is stripped and passed to `clean`,
      and the first one kept becomes a heading. */
  function Collect(raw: seq<string>, clean: string -> string, first: bool): (lines: seq<string>)
    ensures |lines| <= |raw|
  {
    if raw == [] then []
    else
      var l := Strip(raw[0]);
      if l == [] then Collect(raw[1..], clean, first)
      else [if first then Headed(clean(l)) else clean(l)] + Collect(raw[1..], clean, false)
  }

  /** The lines that are not all whitespace, in order. */
  function NonBlank(raw: seq<string>): (r: seq<string>)
    ensures |r| <= |raw|
  {
    if raw == [] then []
    else (if AllSpace(raw[0]) then [] else [raw[0]]) + NonBlank(raw[1..])
  }

  /** Every line of the input is either blank or kept by the filter. */
  lemma {:induction false} NonBlankKeeps(raw: seq<string>, i: nat)
    requires i < |raw| && !AllSpace(raw[i])
    ensures raw[i] in NonBlank(raw)
  {
    if i > 0 {
      NonBlankKeeps(raw[1..], i - 1);
    }
  }

  /** A blank line is skipped by both the loop and the filter. */
  lemma CollectSkip(raw: seq<string>, clean: string -> string, first: bool)
    requires raw != [] && AllSpace(raw[0])
    ensures Collect(raw, clean, first) == Collect(raw[1..], clean, first)
    ensures NonBlank(raw) == NonBlank(raw[1..])
  {
  }

  /** A non-blank line is kept by both, and the loop clears `first_line`. */
  lemma CollectKeep(raw: seq<string>, clean: string -> string, first: bool)
    requires raw != [] && !AllSpace(raw[0])
    ensures Collect(raw, clean, first) ==
      [if first then Headed(clean(Strip(raw[0]))) else clean(Strip(raw[0]))] + Collect(raw[1..], clean, false)
    ensures NonBlank(raw) == [raw[0]] + NonBlank(raw[1..])
  {
  }

  /** Each line stripped and cleaned. */
  function CleanEach(lines: seq<string>, clean: string -> string): (r: seq<string>)
    ensures |r| == |lines|
  {
    seq(|lines|, k requires 0 <= k < |lines| => clean(Strip(lines[k])))
  }

  lemma CleanEachCons(l: string, rest: seq<string>, clean: string -> string)
    ensures CleanEach([l] + rest, clean) == [clean(Strip(l))] + CleanEach(rest, clean)
  {
    var a, b := CleanEach([l] + rest, clean), [clean(Strip(l))] + CleanEach(rest, clean);
    forall k | 1 <= k < |a|
      ensures a[k] == b[k]
    {
      assert ([l] + rest)[k] == rest[k - 1];
    }
  }

  /** Without `first_line` the loop is a filter and a map. */
  lemma {:induction false} CollectPlain(raw: seq<string>, clean: string -> string)
    ensures Collect(raw, clean, false) == CleanEach(NonBlank(raw), clean)
  {
    if raw != [] {
      CollectPlain(raw[1..], clean);
      if AllSpace(raw[0]) {
        CollectSkip(raw, clean, false);
      } else {
        CollectKeep(raw, clean, false);
        CleanEachCons(raw[0], NonBlank(raw[1..]), clean);
      }
    }
  }

  /** With `first_line` set the loop only turns its first kept line into a heading. */
  lemma {:induction false} CollectHeadsFirst(raw: seq<string>, clean: string -> string)
    ensures var c := Collect(raw, clean, false);
      Collect(raw, clean, true) == if c == [] then [] else [Headed(c[0])] + c[1..]
  {
    if raw != [] {
      if AllSpace(raw[0]) {
        CollectSkip(raw, clean, true);
        CollectSkip(raw, clean, false);
        CollectHeadsFirst(raw[1..], clean);
      } else {
        CollectKeep(raw, clean, true);
        CollectKeep(raw, clean, false);
      }
    }
  }

  /** The loop keeps one line per non-blank input line, in order: each is the cleaned
      stripped line, except that the first kept one becomes a heading when the loop
      starts with `first_line` set. */
  lemma CollectIsFilterMap(raw: seq<string>, clean: string -> string, first: bool)
    ensures |Collect(raw, clean, first)| == |NonBlank(raw)|
    ensures forall k :: 0 <= k < |NonBlank(raw)| ==>
      Collect(raw, clean, first)[k] ==
        if first && k == 0 then Headed(clean(Strip(NonBlank(raw)[k]))) else clean(Strip(NonBlank(raw)[k]))
  {
    var c, nb := Collect(raw, clean, false), NonBlank(raw);
    CollectPlain(raw, clean);
    if first {
      CollectHeadsFirst(raw, clean);
      HeadedFirstIndex(c, Collect(raw, clean, first));
    }
  }

  /** Turning the first line into a heading changes no other line. */
  lemma HeadedFirstIndex(c: seq<string>, d: seq<string>)
    requires d == if c == [] then [] else [Headed(c[0])] + c[1..]
    ensures |d| == |c|
    ensures forall k :: 0 <= k < |c| ==> d[k] == if k == 0 then Headed(c[0]) else c[k]
  {
  }

  /** The lines both callers join: the collected lines of `text`, or the placeholder
      when none is kept, and the first one made a heading once more. */
  function CleanLines(text: string, clean: string -> string): (lines: seq<string>)
    ensures lines != [] && StartsWith(lines[0], "# ")
  {
    var collected := Collect(Split(text, '\n'), clean, true);
    var lines := if collected == [] then [Untitled] else collected;
    [Headed(lines[0])] + lines[1..]
  }

  /** For a text with a non-blank line, the lines are its non-blank lines in order,
      each stripped and cleaned, the first one made a heading. */
  lemma CleanLinesOf(text: string, clean: string -> string)
    requires !AllSpace(text)
    ensures var nb, lines := NonBlank(Split(text, '\n')), CleanLines(text, clean);
      |lines| == |nb| && lines[0] == Headed(clean(Strip(nb[0]))) &&
      forall k :: 1 <= k < |nb| ==> lines[k] == clean(Strip(nb[k]))
  {
    var raw := Split(text, '\n');
    var nb, d := NonBlank(raw), Collect(raw, clean, true);
    SomeLineNonBlank(text);
    CollectIsFilterMap(raw, clean, true);
    assert d != [] && d[0] == Headed(clean(Strip(nb[0])));
    HeadedTwice(d, clean(Strip(nb[0])));
  }

  /** Making an already headed first line a heading again changes nothing. */
  lemma HeadedTwice(d: seq<string>, l: string)
    requires d != [] && d[0] == Headed(l)
    ensures [Headed(d[0])] + d[1..] == d
  {
  }

  /** A text whose lines are all blank gives the placeholder alone. */
  lemma BlankCleanLines(text: string, clean: string -> string)
    requires AllSpace(text)
    ensures CleanLines(text, clean) == [Untitled]
  {
    SomeLineNonBlank(text);
    CollectIsFilterMap(Split(text, '\n'), clean, true);
    assert Untitled[..2] == "# ";
  }

  /** Joining lines with a whitespace separator gives a text that is all whitespace
      when every line is. */
  lemma {:induction false} JoinAllSpace(parts: seq<string>, sep: string)
    requires AllSpace(sep)
    requires forall k :: 0 <= k < |parts| ==> AllSpace(parts[k])
    ensures AllSpace(Join(parts, sep))
  {
    if |parts| > 1 {
      JoinAllSpace(parts[1..], sep);
    }
  }

  /** Every line of an all-whitespace join is all whitespace. */
  lemma {:induction false} JoinPartsSpace(parts: seq<string>, sep: string, k: nat)
    requires k < |parts| && AllSpace(Join(parts, sep))
    ensures AllSpace(parts[k])
  {
    if |parts| > 1 {
      var rest := Join(parts[1..], sep);
      var all := Join(parts, sep);
      assert all == parts[0] + sep + rest;
      if k == 0 {
        assert forall i :: 0 <= i < |parts[0]| ==> parts[0][i] == all[i];
      } else {
        assert forall i :: 0 <= i < |rest| ==> rest[i] == all[|parts[0]| + |sep| + i];
        JoinPartsSpace(parts[1..], sep, k - 1);
      }
    }
  }

  /** A text has a non-blank line exactly when it is not all whitespace. */
  lemma SomeLineNonBlank(text: string)
    ensures NonBlank(Split(text, '\n')) != [] <==> !AllSpace(text)
  {
    var parts := Split(text, '\n');
    if AllSpace(text) {
      forall k | 0 <= k < |parts|
        ensures AllSpace(parts[k])
      {
        JoinPartsSpace(parts, "\n", k);
      }
      NoneNonBlank(parts);
    } else {
      if forall k :: 0 <= k < |parts| ==> AllSpace(parts[k]) {
        JoinAllSpace(parts, "\n");
        assert false;
      }
      var k :| 0 <= k < |parts| && !AllSpace(parts[k]);
      NonBlankKeeps(parts, k);
    }
  }

  lemma {:induction false} NoneNonBlank(raw: seq<string>)
    requires forall k :: 0 <= k < |raw| ==> AllSpace(raw[k])
    ensures NonBlank(raw) == []
  {
    if raw != [] {
      NoneNonBlank(raw[1..]);
    }
  }

  /** Two clean-ups that agree on every line collect the same lines. */
  lemma {:induction false} CollectSameClean(raw: seq<string>, f: string -> string, g: string -> string, first: bool)
    requires forall l :: f(l) == g(l)
    ensures Collect(raw, f, first) == Collect(raw, g, first)
  {
    if raw != [] {
      CollectSameClean(raw[1..], f, g, first);
      CollectSameClean(raw[1..], f, g, false);
    }
  }
}
