/** The heading resolver of `src/processor/heading_processor.py`: level detection from
    font metrics or text shape, the dense remapping of the levels found, the rewrite
    of heading lines as ATX headings and the table of contents. */
module Headings {
  import opened Strings
  import opened HeadingShapes
  import opened Optional

  const MinHeadingLength: nat := 3
  const MaxHeadingLength: nat := 200

  datatype Heading = Heading(text: string, level: int, position: int, fontSize: Option<real>, bold: bool)

  function Min(a: int, b: int): int { if a <= b then a else b }

  /** The level font metrics alone give; 0 when no threshold applies. */
  function FontLevel(size: real, bold: bool): (level: int)
    ensures 0 <= level <= 4
    ensures level == 4 ==> bold
  {
    if size >= 20.0 then 1
    else if size >= 16.0 then 2
    else if size >= 14.0 then 3
    else if size >= 12.0 && bold then 4
    else 0
  }

  /** `is_heading_pattern`: one of the four listed patterns or the section-number
      pattern matches. */
  predicate IsHeadingShape(s: string) {
    MarkdownShape(s) || NumberedShape(s) || TitleShape(s) || CapsShape(s) || SectionNumberShape(s)
  }

  /** The level read from the text's shape, in the source's priority order. */
  function ShapeLevel(s: string): (level: int)
    requires IsHeadingShape(s)
    ensures 1 <= level <= 6
  {
    if SectionNumberShape(s) then
      assert IsDigit(s[0]);
      Min(DigitRuns(FirstWord(s)), 6)
    else if MarkdownShape(s) then RunFrom(s, 0, IsHash)
    else if TitleShape(s) then 2
    else if IsUpperText(s) && WordCount(s) <= 4 then 2
    else 3
  }

  /** `detect_heading_level`: 0 means "not a heading". */
  function DetectHeadingLevel(text: string, fontSize: Option<real>, bold: bool): (level: int)
    ensures 0 <= level <= 6
    ensures level > 0 <==>
      && MinHeadingLength <= |text| <= MaxHeadingLength
      && ((fontSize.Some? && FontLevel(fontSize.value, bold) > 0) || IsHeadingShape(text))
  {
    if text == [] || |text| < MinHeadingLength || |text| > MaxHeadingLength then 0
    else if fontSize.Some? && FontLevel(fontSize.value, bold) > 0 then FontLevel(fontSize.value, bold)
    else if IsHeadingShape(text) then ShapeLevel(text)
    else 0
  }

  /** Font thresholds win over the text's shape whenever one applies. */
  lemma FontTakesPrecedence(text: string, size: real, bold: bool)
    requires MinHeadingLength <= |text| <= MaxHeadingLength
    ensures size >= 20.0 ==> DetectHeadingLevel(text, Some(size), bold) == 1
    ensures 16.0 <= size < 20.0 ==> DetectHeadingLevel(text, Some(size), bold) == 2
    ensures 14.0 <= size < 16.0 ==> DetectHeadingLevel(text, Some(size), bold) == 3
    ensures 12.0 <= size < 14.0 && bold ==> DetectHeadingLevel(text, Some(size), bold) == 4
    ensures (size < 12.0 || (size < 14.0 && !bold)) ==>
      DetectHeadingLevel(text, Some(size), bold) == DetectHeadingLevel(text, None, bold)
  {
  }

  /** The examples the repository's tests check, one lemma each. */
  lemma DetectFontExample()
    ensures DetectHeadingLevel("Test Heading", Some(20.0), true) == 1
  {
  }

  lemma DetectMarkdownExample()
    ensures DetectHeadingLevel("# Heading", None, false) == 1
  {
    var s := "# Heading";
    RunFromIs(s, 0, 1, IsHash);
    NoNewlineToEnd(s, 2);
    assert AllSpace(s[1..2]);
    assert SpacesThenDotsToEnd(s, 1);
    assert MarkdownShape(s);
    RunFromIs(s, 0, 0, IsDigitOrDot);
    assert !SectionNumberShape(s);
  }

  lemma DetectNumberedExample(a: string, b: string)
    requires a == "1.2.3" && b == "Heading"
    ensures DetectHeadingLevel(a + " " + b, None, false) == 3
  {
    NumberedExampleShape(a, b);
    DottedDigitRuns(a);
    assert |a + " " + b| == 13;
  }

  /** `1.2.3 Heading` has the section-number shape, and its first word is the number. */
  lemma NumberedExampleShape(a: string, b: string)
    requires a == "1.2.3" && b == "Heading"
    ensures SectionNumberShape(a + " " + b) && FirstWord(a + " " + b) == a
  {
    var s := a + " " + b;
    RunFromIs(s, 0, 5, IsDigitOrDot);
    assert s[..5] == a;
    assert DottedNumber(a);
    assert forall k :: 5 <= k < |s| ==> s[k] != '\n';
    NoNewlineToEnd(s, 6);
    assert AllSpace(s[5..6]);
    assert SpacesThenDotsToEnd(s, 5);
    RunFromIs(s, 0, 5, NotSpace);
  }

  /** Three one-digit groups separated by dots make three digit runs. */
  lemma DottedDigitRuns(t: string)
    requires t == "1.2.3"
    ensures DigitRuns(t) == 3
  {
    RunFromIs(t, 0, 1, IsDigit);
    assert DigitRuns(t) == 1 + DigitRuns(t[1..]);
    var u := t[2..];
    assert t[1..][1..] == u;
    assert DigitRuns(t[1..]) == DigitRuns(u);
    RunFromIs(u, 0, 1, IsDigit);
    assert DigitRuns(u) == 1 + DigitRuns(u[1..]);
    var v := u[2..];
    assert u[1..][1..] == v;
    assert DigitRuns(u[1..]) == DigitRuns(v);
    RunFromIs(v, 0, 1, IsDigit);
    assert DigitRuns(v) == 1 + DigitRuns(v[1..]);
    assert v[1..] == [];
  }

  lemma DetectCapsExample(a: string, b: string, c: string)
    requires a == "ALL" && b == "CAPS" && c == "HEADING"
    ensures DetectHeadingLevel(a + " " + (b + " " + c), None, false) == 2
  {
    CapsExampleShape(a, b, c);
    CapsWords(a, b, c);
    assert |a + " " + (b + " " + c)| == 16;
  }

  /** `ALL CAPS HEADING` has only the capitals shape among those tried before it. */
  lemma CapsExampleShape(a: string, b: string, c: string)
    requires a == "ALL" && b == "CAPS" && c == "HEADING"
    ensures var s := a + " " + (b + " " + c);
      CapsShape(s) && !SectionNumberShape(s) && !MarkdownShape(s) && !TitleShape(s) && IsUpperText(s)
  {
    var s := a + " " + (b + " " + c);
    assert |s| == 16;
    assert forall k :: 0 <= k < |s| ==> IsUpperOrSpace(s[k]) && IsLetterOrSpace(s[k]) && !IsDigitOrDot(s[k]);
    assert IsUpper(s[0]) && IsUpper(s[15]);
    assert CapsShape(s);
    assert !SectionNumberShape(s);
    assert !MarkdownShape(s);
    RunFromIs(s, 1, |s|, IsLetterOrSpace);
    assert !TitleShape(s);
    assert IsUpperText(s) by { assert IsUpper(s[0]); }
  }

  /** Three words separated by single spaces. */
  lemma CapsWords(a: string, b: string, c: string)
    requires a == "ALL" && b == "CAPS" && c == "HEADING"
    ensures WordCount(a + " " + (b + " " + c)) == 3
  {
    WordCountSpaceJoin(a, b + " " + c);
    WordCountSpaceJoin(b, c);
    WordCountOneWord(a);
    WordCountOneWord(b);
    WordCountOneWord(c);
  }

  /** No font threshold applies: no size is given, or it is below every threshold. */
  predicate NoFontLevel(fontSize: Option<real>, bold: bool) {
    fontSize.None? || FontLevel(fontSize.value, bold) == 0
  }

  /** An ATX heading line, `k` hashes from 1 to 6, a space and one non-empty line of
      text, is detected at level `k`: a heading rendered as `'#' * level + ' ' + text`
      is read back at its own level. */
  lemma AtxLevel(k: nat, t: string, fontSize: Option<real>, bold: bool)
    requires 1 <= k <= 6 && t != [] && '\n' !in t
    requires NoFontLevel(fontSize, bold)
    requires MinHeadingLength <= |RepeatChar('#', k) + " " + t| <= MaxHeadingLength
    ensures DetectHeadingLevel(RepeatChar('#', k) + " " + t, fontSize, bold) == k
  {
    var s := RepeatChar('#', k) + " " + t;
    assert forall i :: 0 <= i < |t| ==> s[k + 1 + i] == t[i];
    RunFromIs(s, 0, k, IsHash);
    NoNewlineToEnd(s, k + 1);
    assert AllSpace(s[k..k + 1]);
    assert SpacesThenDotsToEnd(s, k);
    RunFromIs(s, 0, 0, IsDigitOrDot);
    assert !SectionNumberShape(s);
  }

  /** A section number `d` (digit groups joined by single dots, a final dot allowed),
      then whitespace, then one line of text, is detected at the number of digit groups
      in `d`, capped at 6. */
  lemma NumberedLevel(d: string, w: string, t: string, fontSize: Option<real>, bold: bool)
    requires DottedNumber(d) && forall i :: 0 <= i < |d| ==> IsDigitOrDot(d[i])
    requires w != [] && AllSpace(w) && t != [] && '\n' !in t
    requires NoFontLevel(fontSize, bold)
    requires MinHeadingLength <= |d + w + t| <= MaxHeadingLength
    ensures DetectHeadingLevel(d + w + t, fontSize, bold) == Min(DigitRuns(d), 6)
  {
    SectionNumberText(d, w, t);
  }

  /** Such a text has the section-number shape, and its first word is the number. */
  lemma SectionNumberText(d: string, w: string, t: string)
    requires DottedNumber(d) && forall i :: 0 <= i < |d| ==> IsDigitOrDot(d[i])
    requires w != [] && AllSpace(w) && t != [] && '\n' !in t
    ensures SectionNumberShape(d + w + t) && FirstWord(d + w + t) == d
  {
    var s, m := d + w + t, |d|;
    var j := m + |w|;
    assert s[m] == w[0];
    RunFromIs(s, 0, m, IsDigitOrDot);
    assert s[..m] == d;
    assert s[m..j] == w;
    assert forall i :: j <= i < |s| ==> s[i] == t[i - j];
    NoNewlineToEnd(s, j);
    assert SpacesThenDotsToEnd(s, m);
    RunFromIs(s, 0, m, NotSpace);
  }

  /** A text that starts like a title (`^[A-Z][A-Za-z\s]+:`) is level 2; a text in
      the capitals shape is level 2 with at most four words and, unless it is also a
      title, level 3 with more. */
  lemma TitleCapsLevel(s: string, fontSize: Option<real>, bold: bool)
    requires NoFontLevel(fontSize, bold)
    requires MinHeadingLength <= |s| <= MaxHeadingLength
    ensures TitleShape(s) ==> DetectHeadingLevel(s, fontSize, bold) == 2
    ensures CapsShape(s) && WordCount(s) <= 4 ==> DetectHeadingLevel(s, fontSize, bold) == 2
    ensures CapsShape(s) && !TitleShape(s) && WordCount(s) > 4 ==> DetectHeadingLevel(s, fontSize, bold) == 3
  {
    if TitleShape(s) || CapsShape(s) {
      assert IsUpper(s[0]);
      RunFromIs(s, 0, 0, IsDigitOrDot);
      RunFromIs(s, 0, 0, IsHash);
      assert !SectionNumberShape(s) && !MarkdownShape(s);
      if CapsShape(s) {
        assert forall k :: 0 <= k < |s| ==> !IsLower(s[k]);
        assert IsUpperText(s);
      }
    }
  }

  /** The levels the headings carry. */
  function LevelSet(hs: seq<Heading>): set<int> {
    set i | 0 <= i < |hs| :: hs[i].level
  }

  /** The levels `1..m`. */
  function UpTo(m: int): (r: set<int>)
    ensures forall l :: l in r <==> 1 <= l <= m
    decreases m
  {
    if m < 1 then {} else UpTo(m - 1) + {m}
  }

  /** Strictly increasing, hence free of repeats. */
  ghost predicate Increasing(s: seq<int>) {
    forall i, j :: 0 <= i < j < |s| ==> s[i] < s[j]
  }

  /** Adds `x` to a strictly increasing sequence unless it is already there. */
  function InsertLevel(x: int, s: seq<int>): (r: seq<int>)
    requires Increasing(s)
    ensures Increasing(r)
    ensures forall y :: y in r <==> y == x || y in s
    ensures |r| > 0 && (r[0] == x || (s != [] && r[0] == s[0]))
  {
    if s == [] then [x]
    else if x < s[0] then [x] + s
    else if x == s[0] then s
    else [s[0]] + InsertLevel(x, s[1..])
  }

  /** `sorted(level_map.keys())`: the distinct levels of the headings, ascending. */
  function SortedLevels(hs: seq<Heading>): (sl: seq<int>)
    ensures Increasing(sl)
    ensures forall l :: l in sl <==> l in LevelSet(hs)
  {
    if hs == [] then []
    else
      var t := SortedLevels(hs[1..]);
      assert forall l :: l in LevelSet(hs) <==> l == hs[0].level || l in LevelSet(hs[1..]) by {
        assert forall i :: 0 < i < |hs| ==> hs[i] == hs[1..][i - 1];
      }
      InsertLevel(hs[0].level, t)
  }

  /** Index of `l` among the sorted levels (the `enumerate` counter minus one). */
  function Rank(sl: seq<int>, l: int): (r: nat)
    requires l in sl
    ensures r < |sl| && sl[r] == l
  {
    if sl[0] == l then 0 else 1 + Rank(sl[1..], l)
  }

  /** `new_level_map[l]`: the 1-based rank, capped at 6. */
  function NewLevel(sl: seq<int>, l: int): (n: int)
    requires l in sl
    ensures 1 <= n <= Min(|sl|, 6)
  {
    Min(Rank(sl, l) + 1, 6)
  }

  /** Every heading's level replaced by its capped rank in `sl`. */
  function Relevel(hs: seq<Heading>, sl: seq<int>): (r: seq<Heading>)
    requires forall i :: 0 <= i < |hs| ==> hs[i].level in sl
    ensures |r| == |hs|
    ensures forall i :: 0 <= i < |hs| ==> r[i] == hs[i].(level := NewLevel(sl, hs[i].level))
  {
    seq(|hs|, i requires 0 <= i < |hs| => hs[i].(level := NewLevel(sl, hs[i].level)))
  }

  /** `normalize_heading_levels`: each level replaced by its capped rank among the
      distinct levels present; count, order, text and position are kept. */
  function Normalize(hs: seq<Heading>): (r: seq<Heading>)
    ensures |r| == |hs|
    ensures forall i :: 0 <= i < |hs| ==> r[i] == hs[i].(level := r[i].level)
    ensures forall i :: 0 <= i < |hs| ==> 1 <= r[i].level <= Min(|SortedLevels(hs)|, 6)
  {
    var sl := SortedLevels(hs);
    assert forall i :: 0 <= i < |hs| ==> hs[i].level in LevelSet(hs);
    Relevel(hs, sl)
  }

  /** Normalisation keeps the order of levels, and keeps it strictly when there are
      at most six distinct levels. */
  lemma NormalizeOrder(hs: seq<Heading>, i: nat, j: nat)
    requires i < |hs| && j < |hs|
    ensures hs[i].level <= hs[j].level ==> Normalize(hs)[i].level <= Normalize(hs)[j].level
    ensures |SortedLevels(hs)| <= 6 ==>
      (hs[i].level < hs[j].level <==> Normalize(hs)[i].level < Normalize(hs)[j].level)
  {
    var sl := SortedLevels(hs);
    assert hs[i].level in LevelSet(hs) && hs[j].level in LevelSet(hs);
    var ri, rj := Rank(sl, hs[i].level), Rank(sl, hs[j].level);
    assert hs[i].level < hs[j].level <==> ri < rj;
  }

  /** The levels after normalisation are exactly `1..k`, `k` the number of distinct
      levels before it, capped at 6. */
  lemma NormalizeLevelSet(hs: seq<Heading>)
    ensures LevelSet(Normalize(hs)) == UpTo(Min(|SortedLevels(hs)|, 6))
  {
    var r := Normalize(hs);
    var sl := SortedLevels(hs);
    forall l | l in UpTo(Min(|sl|, 6))
      ensures l in LevelSet(r)
    {
      assert sl[l - 1] in LevelSet(hs);
      var i :| 0 <= i < |hs| && hs[i].level == sl[l - 1];
      assert Rank(sl, hs[i].level) == l - 1;
      assert r[i].level == l;
    }
  }

  /** A strictly increasing sequence holding exactly `1..m` is `[1, 2, .., m]`. */
  lemma {:induction false} RangeAt(s: seq<int>, m: int, i: nat)
    requires Increasing(s)
    requires forall l :: l in s <==> 1 <= l <= m
    requires i < |s|
    ensures s[i] == i + 1
    decreases i
  {
    if i == 0 {
      assert s[0] in s;
      assert 1 in s;
      var j :| 0 <= j < |s| && s[j] == 1;
    } else {
      RangeAt(s, m, i - 1);
      assert s[i] in s;
      assert i + 1 in s;
      var j :| 0 <= j < |s| && s[j] == i + 1;
    }
  }

  lemma RangeLength(s: seq<int>, m: int)
    requires Increasing(s)
    requires forall l :: l in s <==> 1 <= l <= m
    ensures |s| == if m < 0 then 0 else m
  {
    if |s| > 0 {
      RangeAt(s, m, |s| - 1);
      assert s[|s| - 1] in s;
      assert m in s;
      var j :| 0 <= j < |s| && s[j] == m;
      RangeAt(s, m, j);
    } else {
      assert m >= 1 ==> 1 in s;
    }
  }

  /** Relevelling against `[1, .., m]` with `m <= 6` leaves levels in `1..m` alone. */
  lemma RelevelRange(r: seq<Heading>, sl: seq<int>, m: int)
    requires m <= 6 && Increasing(sl)
    requires forall l :: l in sl <==> 1 <= l <= m
    requires forall i :: 0 <= i < |r| ==> r[i].level in sl
    ensures Relevel(r, sl) == r
  {
    RangeLength(sl, m);
    forall i | 0 <= i < |r|
      ensures Relevel(r, sl)[i] == r[i]
    {
      var l := r[i].level;
      RangeAt(sl, m, l - 1);
      assert Rank(sl, l) == l - 1;
    }
  }

  /** Normalising twice is normalising once: the levels are already `1..k`. */
  lemma NormalizeIdempotent(hs: seq<Heading>)
    ensures Normalize(Normalize(hs)) == Normalize(hs)
  {
    var r := Normalize(hs);
    var m := Min(|SortedLevels(hs)|, 6);
    var sl := SortedLevels(r);
    NormalizeLevelSet(hs);
    assert forall l :: l in sl <==> 1 <= l <= m;
    assert forall i :: 0 <= i < |r| ==> r[i].level in LevelSet(r);
    RelevelRange(r, sl, m);
  }

  /** The font metrics recorded for line `i`, if any. */
  function FontSizeAt(fontInfo: map<int, (real, bool)>, i: int): Option<real> {
    if i in fontInfo then Some(fontInfo[i].0) else None
  }

  function BoldAt(fontInfo: map<int, (real, bool)>, i: int): bool {
    i in fontInfo && fontInfo[i].1
  }

  /** The level `extract_headings` detects for line `i`: 0 for a blank line, whose
      stripped text is too short to be a heading. */
  function LineLevel(lines: seq<string>, fontInfo: map<int, (real, bool)>, i: nat): int
    requires i < |lines|
  {
    DetectHeadingLevel(Strip(lines[i]), FontSizeAt(fontInfo, i), BoldAt(fontInfo, i))
  }

  /** The record `extract_headings` builds for line `i`, before normalisation. */
  function LineHeading(lines: seq<string>, fontInfo: map<int, (real, bool)>, i: nat): Heading
    requires i < |lines|
  {
    Heading(Strip(lines[i]), LineLevel(lines, fontInfo, i), i, FontSizeAt(fontInfo, i), BoldAt(fontInfo, i))
  }

  /** A blank line is never a heading, so skipping it changes nothing. */
  lemma BlankLineLevel(lines: seq<string>, fontInfo: map<int, (real, bool)>, i: nat)
    requires i < |lines| && AllSpace(lines[i])
    ensures LineLevel(lines, fontInfo, i) == 0
  {
  }

  function Positions(hs: seq<Heading>): set<int> {
    set k | 0 <= k < |hs| :: hs[k].position
  }

  /** The candidate record of every line, in line order. */
  function Candidates(lines: seq<string>, fontInfo: map<int, (real, bool)>): (c: seq<Heading>)
    ensures |c| == |lines|
    ensures forall i :: 0 <= i < |lines| ==> c[i] == LineHeading(lines, fontInfo, i)
  {
    seq(|lines|, i requires 0 <= i < |lines| => LineHeading(lines, fontInfo, i))
  }

  /** The loop of `extract_headings` from line `from` on: the candidates of positive
      level, in line order. */
  function KeepHeadings(c: seq<Heading>, from: nat): (hs: seq<Heading>)
    requires from <= |c|
    requires forall i :: 0 <= i < |c| ==> c[i].position == i
    ensures forall k :: 0 <= k < |hs| ==> from <= hs[k].position < |c|
    ensures forall k, m :: 0 <= k < m < |hs| ==> hs[k].position < hs[m].position
    ensures forall k :: 0 <= k < |hs| ==> hs[k] == c[hs[k].position] && hs[k].level > 0
    ensures forall i :: from <= i < |c| && c[i].level > 0 ==> c[i] in hs
    decreases |c| - from
  {
    if from == |c| then []
    else
      var rest := KeepHeadings(c, from + 1);
      if c[from].level > 0 then [c[from]] + rest else rest
  }

  /** Normalising the kept candidates keeps their positions and texts. */
  lemma NormalizedKeep(c: seq<Heading>)
    requires forall i :: 0 <= i < |c| ==> c[i].position == i
    ensures var hs := Normalize(KeepHeadings(c, 0));
      && (forall k :: 0 <= k < |hs| ==> 0 <= hs[k].position < |c|)
      && (forall k, m :: 0 <= k < m < |hs| ==> hs[k].position < hs[m].position)
      && (forall k :: 0 <= k < |hs| ==> hs[k].text == c[hs[k].position].text && 1 <= hs[k].level <= 6)
  {
    var d := KeepHeadings(c, 0);
    var hs := Normalize(d);
    assert forall k :: 0 <= k < |hs| ==> 1 <= hs[k].level <= 6;
    ReleveledKeep(c, d, hs);
  }

  lemma ReleveledKeep(c: seq<Heading>, d: seq<Heading>, hs: seq<Heading>)
    requires forall k :: 0 <= k < |d| ==> 0 <= d[k].position < |c| && d[k] == c[d[k].position]
    requires forall k, m :: 0 <= k < m < |d| ==> d[k].position < d[m].position
    requires |hs| == |d| && forall k :: 0 <= k < |hs| ==> hs[k] == d[k].(level := hs[k].level)
    requires forall k :: 0 <= k < |hs| ==> 1 <= hs[k].level <= 6
    ensures forall k :: 0 <= k < |hs| ==> 0 <= hs[k].position < |c|
    ensures forall k, m :: 0 <= k < m < |hs| ==> hs[k].position < hs[m].position
    ensures forall k :: 0 <= k < |hs| ==> hs[k].text == c[hs[k].position].text && 1 <= hs[k].level <= 6
  {
    assert forall k :: 0 <= k < |hs| ==> hs[k].position == d[k].position && hs[k].text == d[k].text;
  }

  /** A line is a heading position after normalisation exactly when its candidate has
      a positive level. */
  lemma NormalizedKeepPositions(c: seq<Heading>)
    requires forall i :: 0 <= i < |c| ==> c[i].position == i
    ensures forall i :: 0 <= i < |c| ==> (c[i].level > 0 <==> i in Positions(Normalize(KeepHeadings(c, 0))))
  {
    var d := KeepHeadings(c, 0);
    KeptPositions(c, d, Normalize(d));
  }

  lemma KeptPositions(c: seq<Heading>, d: seq<Heading>, hs: seq<Heading>)
    requires forall i :: 0 <= i < |c| ==> c[i].position == i
    requires forall k :: 0 <= k < |d| ==> 0 <= d[k].position < |c| && d[k] == c[d[k].position] && d[k].level > 0
    requires forall i :: 0 <= i < |c| && c[i].level > 0 ==> c[i] in d
    requires |hs| == |d| && forall k :: 0 <= k < |hs| ==> hs[k].position == d[k].position
    ensures forall i :: 0 <= i < |c| ==> (c[i].level > 0 <==> i in Positions(hs))
  {
    forall i | 0 <= i < |c|
      ensures c[i].level > 0 <==> i in Positions(hs)
    {
      if c[i].level > 0 {
        var k :| 0 <= k < |d| && d[k] == c[i];
        assert hs[k].position == i;
      }
      if i in Positions(hs) {
        var k :| 0 <= k < |hs| && hs[k].position == i;
        assert d[k] == c[i];
      }
    }
  }

  /** `extract_headings` with font information keyed by line index. */
  function ExtractHeadings(text: string, fontInfo: map<int, (real, bool)>): (hs: seq<Heading>)
    ensures var lines := Split(text, '\n');
      && (forall k :: 0 <= k < |hs| ==> 0 <= hs[k].position < |lines|)
      && (forall k, m :: 0 <= k < m < |hs| ==> hs[k].position < hs[m].position)
      && (forall k :: 0 <= k < |hs| ==> hs[k].text == Strip(lines[hs[k].position]) && 1 <= hs[k].level <= 6)
      && (forall i :: 0 <= i < |lines| ==> (LineLevel(lines, fontInfo, i) > 0 <==> i in Positions(hs)))
  {
    var lines := Split(text, '\n');
    HeadingsOfLines(lines, fontInfo);
    Normalize(KeepHeadings(Candidates(lines, fontInfo), 0))
  }

  /** The normalised kept candidates of some lines: in line order, each the stripped
      text of its line with a level from 1 to 6, one for every line of positive level. */
  lemma HeadingsOfLines(lines: seq<string>, fontInfo: map<int, (real, bool)>)
    ensures var hs := Normalize(KeepHeadings(Candidates(lines, fontInfo), 0));
      && (forall k :: 0 <= k < |hs| ==> 0 <= hs[k].position < |lines|)
      && (forall k, m :: 0 <= k < m < |hs| ==> hs[k].position < hs[m].position)
      && (forall k :: 0 <= k < |hs| ==> hs[k].text == Strip(lines[hs[k].position]) && 1 <= hs[k].level <= 6)
      && (forall i :: 0 <= i < |lines| ==> (LineLevel(lines, fontInfo, i) > 0 <==> i in Positions(hs)))
  {
    var c := Candidates(lines, fontInfo);
    NormalizedKeep(c);
    NormalizedKeepPositions(c);
  }
}
