/** The equation rewriter of `src/processor/latex_processor.py`: the three equation
    patterns as scanners (opening delimiter, lazy body, closing delimiter), their
    `re.finditer` and `re.search` drivers, the body clean-up, the renderings and the
    left-to-right splice with a running length offset. */
module Latex {
  import opened Strings
  import opened Sorting
  import opened Optional
  import opened Splices

  datatype Kind = Block | Inline | Align

  /** One of the three patterns: the alternative opening and closing delimiters
      around the lazy body `(.*?)`. */
  datatype Pattern = Pattern(kind: Kind, opens: seq<string>, closes: seq<string>)

  /** One extracted equation: the stripped body, its kind and its span in the text. */
  datatype Equation = Equation(body: string, kind: Kind, start: int, end: int)

  const BeginEquation: string := "\\begin{equation}"
  const EndEquation: string := "\\end{equation}"
  const BeginAlign: string := "\\begin{align}"
  const BeginAlignStar: string := "\\begin{align*}"
  const EndAlign: string := "\\end{align}"
  const EndAlignStar: string := "\\end{align*}"

  const BlockPattern: Pattern := Pattern(Block, [BeginEquation], [EndEquation])
  const InlinePattern: Pattern := Pattern(Inline, ["$"], ["$"])
  /** `\*?` is greedy, so the starred form is tried first; at any one position at most
      one of the two forms fits. */
  const AlignPattern: Pattern := Pattern(Align, [BeginAlignStar, BeginAlign], [EndAlignStar, EndAlign])

  /** `pat` occurs in `text` at `p`. */
  predicate Occurs(text: string, pat: string, p: nat) {
    p + |pat| <= |text| && text[p..p + |pat|] == pat
  }

  /** Length of the first of the non-empty `forms` that occurs at `p`, or 0. */
  function DelimAt(text: string, forms: seq<string>, p: nat): (n: nat)
    ensures n > 0 ==> p + n <= |text|
  {
    if forms == [] then 0
    else if |forms[0]| > 0 && Occurs(text, forms[0], p) then |forms[0]|
    else DelimAt(text, forms[1..], p)
  }

  /** A delimiter is found exactly when one of the forms occurs, and its length is
      that form's length. */
  lemma {:induction false} DelimAtForm(text: string, forms: seq<string>, p: nat)
    ensures DelimAt(text, forms, p) > 0 ==>
      exists k :: 0 <= k < |forms| && DelimAt(text, forms, p) == |forms[k]| && Occurs(text, forms[k], p)
    ensures DelimAt(text, forms, p) == 0 ==> forall k :: 0 <= k < |forms| && |forms[k]| > 0 ==> !Occurs(text, forms[k], p)
  {
    if forms != [] && !(|forms[0]| > 0 && Occurs(text, forms[0], p)) {
      DelimAtForm(text, forms[1..], p);
      assert forall k :: 1 <= k < |forms| ==> forms[k] == forms[1..][k - 1];
      if DelimAt(text, forms, p) > 0 {
        var k :| 0 <= k < |forms[1..]| && DelimAt(text, forms, p) == |forms[1..][k]| && Occurs(text, forms[1..][k], p);
        assert forms[1..][k] == forms[k + 1];
      }
    }
  }

  /** Every found delimiter is at least as long as the shortest form. */
  lemma DelimAtAtLeast(text: string, forms: seq<string>, p: nat, m: nat)
    requires forall k :: 0 <= k < |forms| ==> |forms[k]| >= m
    ensures DelimAt(text, forms, p) == 0 || DelimAt(text, forms, p) >= m
  {
    DelimAtForm(text, forms, p);
  }

  function OpenLen(text: string, pat: Pattern, p: nat): (o: nat)
    ensures o > 0 ==> p + o <= |text|
  {
    DelimAt(text, pat.opens, p)
  }

  function CloseLen(text: string, pat: Pattern, q: nat): (c: nat)
    ensures c > 0 ==> q + c <= |text|
  {
    DelimAt(text, pat.closes, q)
  }

  /** The lazy body `(.*?)` starting at `q`: the first position at which a closing
      delimiter matches, or -1. Without `re.DOTALL` the body cannot cross a line feed. */
  function FindClose(text: string, pat: Pattern, dotAll: bool, q: nat): (r: int)
    requires q <= |text|
    ensures r == -1 || (q <= r <= |text| && CloseLen(text, pat, r) > 0)
    ensures r != -1 ==> forall k :: q <= k < r ==> CloseLen(text, pat, k) == 0 && (dotAll || text[k] != '\n')
    ensures r == -1 && dotAll ==> forall k :: q <= k <= |text| ==> CloseLen(text, pat, k) == 0
    decreases |text| - q
  {
    if CloseLen(text, pat, q) > 0 then q
    else if q == |text| then -1
    else if !dotAll && text[q] == '\n' then -1
    else FindClose(text, pat, dotAll, q + 1)
  }

  /** The match of `pat` at exactly `p`, if any: `match.group(1).strip()`, the kind,
      `match.start()` and `match.end()`. */
  function MatchAt(text: string, pat: Pattern, dotAll: bool, p: nat): (m: Option<Equation>)
    requires p <= |text|
    ensures m.Some? ==> m.value.kind == pat.kind && m.value.start == p && p < m.value.end <= |text|
  {
    var o := OpenLen(text, pat, p);
    if o == 0 then None
    else
      var q := FindClose(text, pat, dotAll, p + o);
      if q == -1 then None
      else Some(Equation(Strip(text[p + o..q]), pat.kind, p, q + CloseLen(text, pat, q)))
  }

  /** `re.finditer` from position `p`: a match is tried at every position, and after a
      match the scan resumes at its end. */
  function FindAll(text: string, pat: Pattern, dotAll: bool, p: nat): (es: seq<Equation>)
    requires p <= |text| + 1
    ensures forall i :: 0 <= i < |es| ==> es[i].kind == pat.kind && p <= es[i].start < es[i].end <= |text|
    ensures forall i, j :: 0 <= i < j < |es| ==> es[i].end <= es[j].start
    decreases |text| + 1 - p
  {
    if p > |text| then []
    else
      var m := MatchAt(text, pat, dotAll, p);
      if m.Some? then
        var rest := FindAll(text, pat, dotAll, m.value.end);
        FoundCons(m.value, rest, pat.kind, p, |text|);
        [m.value] + rest
      else FindAll(text, pat, dotAll, p + 1)
  }

  /** A match from `p` followed by matches found after its end is a list of matches
      found from `p`, in order and apart. */
  lemma FoundCons(e: Equation, rest: seq<Equation>, kind: Kind, p: nat, n: nat)
    requires e.kind == kind && p <= e.start < e.end <= n
    requires forall i :: 0 <= i < |rest| ==> rest[i].kind == kind && e.end <= rest[i].start < rest[i].end <= n
    requires forall i, j :: 0 <= i < j < |rest| ==> rest[i].end <= rest[j].start
    ensures var es := [e] + rest;
      (forall i :: 0 <= i < |es| ==> es[i].kind == kind && p <= es[i].start < es[i].end <= n) &&
      (forall i, j :: 0 <= i < j < |es| ==> es[i].end <= es[j].start)
  {
    var es := [e] + rest;
    assert forall i :: 0 < i < |es| ==> es[i] == rest[i - 1];
  }

  /** Every equation the scan reports is the match of its pattern at its start. */
  lemma {:induction false} FindAllMatches(text: string, pat: Pattern, dotAll: bool, p: nat)
    requires p <= |text| + 1
    ensures forall e :: e in FindAll(text, pat, dotAll, p) ==> MatchAt(text, pat, dotAll, e.start) == Some(e)
    decreases |text| + 1 - p
  {
    if p <= |text| {
      var m := MatchAt(text, pat, dotAll, p);
      if m.Some? {
        FindAllMatches(text, pat, dotAll, m.value.end);
      } else {
        FindAllMatches(text, pat, dotAll, p + 1);
      }
    }
  }

  function StartKey(e: Equation): int { e.start }

  /** The three scans of `extract_equations`, in the order they are run: block and
      align with `re.DOTALL`, inline without it. */
  function AllMatches(text: string): seq<Equation> {
    FindAll(text, BlockPattern, true, 0) + FindAll(text, InlinePattern, false, 0) + FindAll(text, AlignPattern, true, 0)
  }

  /** `extract_equations`: all matches, stably sorted by start. */
  function ExtractEquations(text: string): (es: seq<Equation>)
    ensures SortedBy(es, StartKey)
    ensures forall i :: 0 <= i < |es| ==> InBounds(es[i], |text|)
    ensures multiset(es) == multiset(AllMatches(text))
  {
    AllMatchesInBounds(text);
    SortByStart(AllMatches(text), |text|)
  }

  /** Sorting by start keeps every equation within the text. */
  function SortByStart(all: seq<Equation>, n: nat): (es: seq<Equation>)
    requires forall e :: e in all ==> InBounds(e, n)
    ensures SortedBy(es, StartKey)
    ensures forall i :: 0 <= i < |es| ==> InBounds(es[i], n)
    ensures multiset(es) == multiset(all)
  {
    var es := SortByKey(all, StartKey);
    assert forall i :: 0 <= i < |es| ==> es[i] in multiset(all);
    es
  }

  predicate InBounds(e: Equation, n: nat) { 0 <= e.start < e.end <= n }

  lemma AllMatchesInBounds(text: string)
    ensures forall e :: e in AllMatches(text) ==> InBounds(e, |text|)
  {
    var a, b, c := FindAll(text, BlockPattern, true, 0), FindAll(text, InlinePattern, false, 0), FindAll(text, AlignPattern, true, 0);
    assert forall e :: e in a ==> InBounds(e, |text|);
    assert forall e :: e in b ==> InBounds(e, |text|);
    assert forall e :: e in c ==> InBounds(e, |text|);
    assert AllMatches(text) == a + b + c;
  }

  /** Equations with the same start keep the order in which the scans found them. */
  lemma ExtractEquationsStable(text: string, start: int)
    ensures WithKey(ExtractEquations(text), StartKey, start) == WithKey(AllMatches(text), StartKey, start)
  {
    SortByKeyStable(AllMatches(text), StartKey, start);
  }

  /** `re.search(pattern, text, re.DOTALL)` from position `p`. */
  function SearchFrom(text: string, pat: Pattern, p: nat): bool
    requires p <= |text| + 1
    decreases |text| + 1 - p
  {
    p <= |text| && (MatchAt(text, pat, true, p).Some? || SearchFrom(text, pat, p + 1))
  }

  /** `detect_latex`. */
  function DetectLatex(text: string): bool {
    SearchFrom(text, BlockPattern, 0) || SearchFrom(text, InlinePattern, 0) || SearchFrom(text, AlignPattern, 0)
  }

  /** An opening delimiter of `pat` at `a` with a closing delimiter somewhere after it. */
  ghost predicate ClosedFrom(text: string, pat: Pattern, a: nat) {
    OpenLen(text, pat, a) > 0 &&
    exists q :: a + OpenLen(text, pat, a) <= q <= |text| && CloseLen(text, pat, q) > 0
  }

  /** The pattern matches somewhere, stated without the scan. */
  ghost predicate Occurrence(text: string, pat: Pattern) {
    exists a: nat :: ClosedFrom(text, pat, a)
  }

  lemma MatchAtIff(text: string, pat: Pattern, a: nat)
    requires a <= |text|
    ensures MatchAt(text, pat, true, a).Some? <==> ClosedFrom(text, pat, a)
  {
    var o := OpenLen(text, pat, a);
    if o > 0 {
      var r := FindClose(text, pat, true, a + o);
      if r != -1 {
        assert a + o <= r <= |text| && CloseLen(text, pat, r) > 0;
      }
    }
  }

  lemma {:induction false} SearchFromIff(text: string, pat: Pattern, p: nat)
    requires p <= |text| + 1
    ensures SearchFrom(text, pat, p) <==> exists a: nat :: p <= a && ClosedFrom(text, pat, a)
    decreases |text| + 1 - p
  {
    if p <= |text| {
      SearchFromIff(text, pat, p + 1);
      MatchAtIff(text, pat, p);
      if exists a: nat :: p <= a && ClosedFrom(text, pat, a) {
        var a: nat :| p <= a && ClosedFrom(text, pat, a);
        if a != p {
          assert p + 1 <= a;
        }
      }
    } else {
      forall a: nat | p <= a
        ensures OpenLen(text, pat, a) == 0
      {
      }
    }
  }

  /** `detect_latex` holds exactly when one of the three patterns occurs somewhere; the
      search uses `re.DOTALL` for all three, so bodies may span lines. */
  lemma DetectLatexIff(text: string)
    ensures DetectLatex(text) <==>
      Occurrence(text, BlockPattern) || Occurrence(text, InlinePattern) || Occurrence(text, AlignPattern)
  {
    SearchFromIff(text, BlockPattern, 0);
    SearchFromIff(text, InlinePattern, 0);
    SearchFromIff(text, AlignPattern, 0);
  }

  /** A text without `$` never matches the inline pattern. */
  lemma NoDollarNoInline(text: string)
    requires '$' !in text
    ensures !Occurrence(text, InlinePattern)
  {
    forall a: nat
      ensures OpenLen(text, InlinePattern, a) == 0
    {
      DelimAtForm(text, ["$"], a);
      if a < |text| {
        assert text[a..a + 1] == [text[a]];
      }
    }
  }

  /** A text shorter than an opening and a closing delimiter together never matches. */
  lemma TooShort(text: string, pat: Pattern, minOpen: nat, minClose: nat)
    requires forall k :: 0 <= k < |pat.opens| ==> |pat.opens[k]| >= minOpen
    requires forall k :: 0 <= k < |pat.closes| ==> |pat.closes[k]| >= minClose
    requires |text| < minOpen + minClose
    ensures !Occurrence(text, pat)
  {
    forall a: nat
      ensures !ClosedFrom(text, pat, a)
    {
      DelimAtAtLeast(text, pat.opens, a, minOpen);
      forall q: nat | a + OpenLen(text, pat, a) <= q
        ensures CloseLen(text, pat, q) == 0 || OpenLen(text, pat, a) == 0
      {
        DelimAtAtLeast(text, pat.closes, q, minClose);
      }
    }
  }

  /** No text shorter than the shortest align environment is detected unless it
      contains a `$`. */
  lemma ShortWithoutDollar(text: string)
    requires '$' !in text && |text| < |BeginAlign| + |EndAlign|
    ensures !DetectLatex(text)
  {
    DetectLatexIff(text);
    TooShort(text, BlockPattern, 16, 14);
    NoDollarNoInline(text);
    TooShort(text, AlignPattern, 13, 11);
  }

  /** A lone `$` is not detected. */
  lemma LoneDollarExample(d: string)
    requires d == "$"
    ensures !DetectLatex(d)
  {
    DetectLatexIff(d);
    TooShort(d, BlockPattern, 16, 14);
    TooShort(d, InlinePattern, 1, 1);
    TooShort(d, AlignPattern, 13, 11);
  }

  /** A lone `\begin{equation}` is not detected. */
  lemma LoneBeginExample(d: string)
    requires d == BeginEquation
    ensures !DetectLatex(d)
  {
    BeginHasNoDollar(d);
    ShortWithoutDollar(d);
  }

  lemma BeginHasNoDollar(d: string)
    requires d == BeginEquation
    ensures '$' !in d
  {
  }

  // ---------------------------------------------------------------------------
  // Body clean-up

  /** `text.split()`: the maximal runs of non-whitespace characters, defined one
      character at a time so that prepending a character has a local effect. */
  function Words(s: string): (ws: seq<string>)
    ensures s != [] && !IsSpace(s[0]) ==> ws != [] && ws[0] != [] && ws[0][0] == s[0]
    ensures forall k :: 0 <= k < |ws| ==> ws[k] != []
  {
    if s == [] then []
    else
      var rest := Words(s[1..]);
      if IsSpace(s[0]) then rest
      else if |s| > 1 && !IsSpace(s[1]) then [[s[0]] + rest[0]] + rest[1..]
      else [[s[0]]] + rest
  }

  /** `re.sub(r'\s+', ' ', s)`: every maximal whitespace run becomes one space. A
      whitespace character followed by another is dropped, and the last one of a run
      becomes the space. */
  function Collapse(s: string): (r: string)
    ensures |r| <= |s| && (r == [] <==> s == [])
    ensures s != [] ==> (IsSpace(r[0]) <==> IsSpace(s[0])) && (IsSpace(r[|r| - 1]) <==> IsSpace(s[|s| - 1]))
    ensures forall k :: 0 <= k < |r| ==> r[k] == ' ' || (r[k] in s && !IsSpace(r[k]))
    ensures forall k :: 0 <= k < |r| - 1 ==> !(IsSpace(r[k]) && IsSpace(r[k + 1]))
  {
    if s == [] then []
    else if IsSpace(s[0]) && |s| > 1 && IsSpace(s[1]) then Collapse(s[1..])
    else
      var t := Collapse(s[1..]);
      var r := (if IsSpace(s[0]) then " " else [s[0]]) + t;
      assert forall k :: 1 <= k < |r| ==> r[k] == t[k - 1];
      r
  }

  /** Collapsing keeps the words: only the whitespace between them changes. */
  lemma {:induction false} CollapseKeepsWords(s: string)
    ensures Words(Collapse(s)) == Words(s)
  {
    if s != [] {
      CollapseKeepsWords(s[1..]);
      if IsSpace(s[0]) && |s| > 1 && IsSpace(s[1]) {
      } else {
        var t := Collapse(s[1..]);
        var r := (if IsSpace(s[0]) then " " else [s[0]]) + t;
        assert r[1..] == t;
      }
    }
  }

  /** A text whose only whitespace is single spaces is its own collapse. */
  lemma {:induction false} CollapseNormal(s: string)
    requires forall k :: 0 <= k < |s| && IsSpace(s[k]) ==> s[k] == ' '
    requires forall k :: 0 <= k < |s| - 1 ==> !(IsSpace(s[k]) && IsSpace(s[k + 1]))
    ensures Collapse(s) == s
  {
    if s != [] {
      CollapseNormal(s[1..]);
      assert s == [s[0]] + s[1..];
    }
  }

  lemma CollapseIdempotent(s: string)
    ensures Collapse(Collapse(s)) == Collapse(s)
  {
    CollapseNormal(Collapse(s));
  }

  /** The command rewrites of `clean_equation`, applied in this order. */
  const Rewrites: seq<(string, string)> := [
    ("\\left", ""),
    ("\\right", ""),
    ("\\begin{array}", "\\begin{aligned}"),
    ("\\end{array}", "\\end{aligned}"),
    ("\\begin{matrix}", "\\begin{aligned}"),
    ("\\end{matrix}", "\\end{aligned}")
  ]

  function ApplyRewrites(s: string, rws: seq<(string, string)>): (r: string)
    requires forall k :: 0 <= k < |rws| ==> |rws[k].0| > 0
    ensures (forall k :: 0 <= k < |rws| ==> rws[k].0[0] !in s) ==> r == s
    decreases |rws|
  {
    if rws == [] then s
    else ApplyRewrites(ReplaceAll(s, rws[0].0, rws[0].1), rws[1..])
  }

  lemma RewritesStartWithBackslash()
    ensures forall k :: 0 <= k < |Rewrites| ==> |Rewrites[k].0| > 0 && Rewrites[k].0[0] == '\\'
  {
  }

  /** `clean_equation`: strip, collapse whitespace runs, then rewrite the commands. */
  function CleanEquation(eq: string): (r: string)
    ensures '\\' !in eq ==> r == Collapse(Strip(eq))
  {
    RewritesStartWithBackslash();
    CleanWithoutCommands(eq);
    ApplyRewrites(Collapse(Strip(eq)), Rewrites)
  }

  /** Without a backslash there is no command to rewrite. */
  lemma CleanWithoutCommands(eq: string)
    ensures '\\' !in eq ==> '\\' !in Collapse(Strip(eq))
  {
    if '\\' !in eq {
      var t := Strip(eq);
      var i := LeadingSpaces(eq);
      assert forall k :: 0 <= k < |t| ==> t[k] == eq[i + k];
      assert '\\' !in t;
    }
  }

  // ---------------------------------------------------------------------------
  // Rendering

  const DisplayFence: string := "\n$$\n"
  const BeginAligned: string := "\\begin{aligned}\n"
  const EndAligned: string := "\n\\end{aligned}"

  /** The text written before the cleaned body. */
  function Opener(kind: Kind): string {
    match kind
    case Block => DisplayFence
    case Align => DisplayFence + BeginAligned
    case Inline => "$"
  }

  /** The text written after the cleaned body. */
  function Closer(kind: Kind): string {
    match kind
    case Block => DisplayFence
    case Align => EndAligned + DisplayFence
    case Inline => "$"
  }

  /** The markdown of one equation: display math between `$$` fences on their own
      lines for block and align equations (align in an `aligned` environment), and
      `$…$` for inline ones. */
  function Render(kind: Kind, c: string): string {
    Opener(kind) + c + Closer(kind)
  }

  lemma Unwrap(a: string, c: string, b: string)
    ensures (a + c + b)[|a|..|a| + |c|] == c
  {
  }

  /** The cleaned body can be read back out of its rendering, so different bodies
      render differently. */
  lemma RenderUnwrap(kind: Kind, c: string)
    ensures Render(kind, c)[|Opener(kind)|..|Opener(kind)| + |c|] == c
    ensures forall d :: Render(kind, d) == Render(kind, c) ==> d == c
  {
    Unwrap(Opener(kind), c, Closer(kind));
    forall d | Render(kind, d) == Render(kind, c)
      ensures d == c
    {
      Unwrap(Opener(kind), d, Closer(kind));
    }
  }

  /** The frames are the ones the pipeline writes. */
  lemma FrameExample(kind: Kind)
    ensures kind == Inline ==> Opener(kind) == "$" && Closer(kind) == "$"
    ensures kind == Block ==> Opener(kind) == "\n$$\n" && Closer(kind) == "\n$$\n"
    ensures kind == Align ==> Opener(kind) == "\n$$\n\\begin{aligned}\n" && Closer(kind) == "\n\\end{aligned}\n$$\n"
  {
  }

  // ---------------------------------------------------------------------------
  // Conversion

  /** The edits `convert_to_markdown` makes: each equation's span with its rendering. */
  function EditsOf(eqs: seq<Equation>): (es: seq<Edit>)
    ensures |es| == |eqs|
    ensures forall i :: 0 <= i < |es| ==>
      es[i].start == eqs[i].start && es[i].end == eqs[i].end && es[i].repl == Render(eqs[i].kind, CleanEquation(eqs[i].body))
  {
    seq(|eqs|, i requires 0 <= i < |eqs| => Edit(eqs[i].start, eqs[i].end, Render(eqs[i].kind, CleanEquation(eqs[i].body))))
  }

  /** `convert_to_markdown`. */
  method ConvertToMarkdown(text: string) returns (result: string)
    ensures !DetectLatex(text) ==> result == text
    ensures DetectLatex(text) ==> result == Fold(text, 0, EditsOf(ExtractEquations(text)))
    ensures DetectLatex(text) && Disjoint(EditsOf(ExtractEquations(text)), 0, |text|) ==>
      result == Rebuild(text, EditsOf(ExtractEquations(text)), 0)
  {
    if !DetectLatex(text) {
      return text;
    }
    var es := EditsOf(ExtractEquations(text));
    var offset;
    result, offset := Splice(text, es);
  }

  /** The loop of `convert_to_markdown`: each edit replaces its span, shifted by the
      length change of the edits before it. */
  method Splice(text: string, es: seq<Edit>) returns (result: string, offset: int)
    ensures result == Fold(text, 0, es)
    ensures offset == SumDeltas(es)
    ensures Disjoint(es, 0, |text|) ==> result == Rebuild(text, es, 0) && |result| == |text| + offset
  {
    result, offset := text, 0;
    var i := 0;
    while i < |es|
      invariant 0 <= i <= |es|
      invariant offset == SumDeltas(es[..i])
      invariant Fold(result, offset, es[i..]) == Fold(text, 0, es)
    {
      assert es[..i + 1][..i] == es[..i];
      assert es[i..][1..] == es[i + 1..];
      result := Apply(result, offset, es[i]);
      offset := offset + Delta(es[i]);
      i := i + 1;
    }
    assert es[..i] == es;
    if Disjoint(es, 0, |text|) {
      FoldIsRebuild(text, es);
    }
  }

  /** Equations in order and apart give edits in order and apart. */
  lemma EditsApart(eqs: seq<Equation>, n: nat)
    requires forall i :: 0 <= i < |eqs| ==> 0 <= eqs[i].start < eqs[i].end <= n
    requires forall i, j :: 0 <= i < j < |eqs| ==> eqs[i].end <= eqs[j].start
    ensures SortedBy(eqs, StartKey)
    ensures Disjoint(EditsOf(eqs), 0, n)
  {
    var es := EditsOf(eqs);
    assert PairwiseApart(es, 0, n) by {
      forall i | 0 <= i < |es|
        ensures 0 <= es[i].start <= es[i].end <= n
      {
      }
      forall i, j | 0 <= i < j < |es|
        ensures es[i].end <= es[j].start
      {
      }
    }
    DisjointIsPairwise(es, 0, n);
  }

  /** When only block equations are found, the spans are in order and apart, so the
      conversion is the one-pass rebuild. */
  lemma OnlyBlocksDisjoint(text: string)
    requires FindAll(text, InlinePattern, false, 0) == [] && FindAll(text, AlignPattern, true, 0) == []
    ensures Disjoint(EditsOf(ExtractEquations(text)), 0, |text|)
  {
    ExtractOnlyBlocks(text);
    EditsApart(FindAll(text, BlockPattern, true, 0), |text|);
  }

  /** When only block equations are found, they are extracted in the order found. */
  lemma ExtractOnlyBlocks(text: string)
    requires FindAll(text, InlinePattern, false, 0) == [] && FindAll(text, AlignPattern, true, 0) == []
    ensures ExtractEquations(text) == FindAll(text, BlockPattern, true, 0)
  {
    var b := FindAll(text, BlockPattern, true, 0);
    assert AllMatches(text) == b;
    EditsApart(b, |text|);
    SortSorted(b, StartKey);
  }
}
