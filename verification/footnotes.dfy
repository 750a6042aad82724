/** The footnote resolver of `src/processor/footnote_processor.py`: the reference
    pattern `\[(\d+|\*)\]` and the content pattern (a line starting with `n.` or `*`,
    running to the end of the line when the next line starts another block or the
    text ends) as scanners, the pairing of references with content blocks, the
    back-to-front rewrite of references with its offset arithmetic, and the merge of
    several texts. */
module Footnotes {
  import opened Strings
  import opened Sorting
  import opened Optional
  import opened Splices

  /** A footnote id, the text `*` or a run of digits. Ids are compared as texts in
      the source; two ids are equal exactly when their texts are (`IdTextInjective`). */
  datatype NoteId = Star | Number(digits: string)

  /** The id as written. */
  function IdText(id: NoteId): string {
    match id
    case Star => "*"
    case Number(d) => d
  }

  /** A number id is a non-empty run of digits. */
  predicate WellFormed(id: NoteId) {
    id.Number? ==> |id.digits| > 0 && forall k :: 0 <= k < |id.digits| ==> IsDigit(id.digits[k])
  }

  lemma IdTextInjective(a: NoteId, b: NoteId)
    requires WellFormed(a) && WellFormed(b)
    ensures IdText(a) == IdText(b) <==> a == b
  {
    if a.Star? && b.Number? {
      assert IsDigit(IdText(b)[0]) && !IsDigit(IdText(a)[0]);
    }
    if b.Star? && a.Number? {
      assert IsDigit(IdText(a)[0]) && !IsDigit(IdText(b)[0]);
    }
  }

  /** An id never holds a line feed. */
  lemma IdOneLine(id: NoteId)
    requires WellFormed(id)
    ensures '\n' !in IdText(id)
  {
    if id.Number? {
      assert forall k :: 0 <= k < |id.digits| ==> id.digits[k] != '\n';
    }
  }

  /** Length of the id as written. */
  function IdLen(id: NoteId): (n: nat)
    ensures n == |IdText(id)|
  {
    match id
    case Star => 1
    case Number(d) => |d|
  }

  datatype Footnote = Footnote(id: NoteId, content: string, referencePos: int, contentPos: int)

  /** A reference `[id]` and its position. */
  datatype Reference = Reference(id: NoteId, pos: nat)

  /** A content block: its id, the body the match captured (not yet stripped) and the
      span of the match. */
  datatype Block = Block(id: NoteId, body: string, start: nat, end: nat)

  // ---------------------------------------------------------------------------
  // References

  /** The reference pattern at `p`: the id when `[id]` starts there. The digit run
      has to be followed directly by `]`, so the id is the whole run. */
  function RefAt(text: string, p: nat): (r: Option<NoteId>)
    ensures r.Some? ==> WellFormed(r.value) && p + IdLen(r.value) + 2 <= |text|
  {
    if p + 2 < |text| && text[p] == '[' then
      if text[p + 1] == '*' then (if text[p + 2] == ']' then Some(Star) else None)
      else
        var n := RunFrom(text, p + 1, IsDigit);
        if n > 0 && p + 1 + n < |text| && text[p + 1 + n] == ']' then Some(Number(text[p + 1..p + 1 + n])) else None
    else None
  }

  /** `[id]` is written at `p`. */
  predicate RefWritten(text: string, id: NoteId, p: nat) {
    var n := IdLen(id);
    p + n + 2 <= |text| && text[p] == '[' && text[p + 1..p + 1 + n] == IdText(id) && text[p + 1 + n] == ']'
  }

  /** The scanner finds exactly the written references. */
  lemma RefAtIff(text: string, p: nat, id: NoteId)
    ensures RefAt(text, p) == Some(id) <==> WellFormed(id) && RefWritten(text, id, p)
  {
    if WellFormed(id) && RefWritten(text, id, p) {
      if id.Star? {
        assert text[p + 1] == text[p + 1..p + 2][0];
      } else {
        var d := id.digits;
        assert text[p + 1] == text[p + 1..p + 1 + |d|][0];
        assert forall k :: p + 1 <= k < p + 1 + |d| ==> text[k] == d[k - p - 1];
        RunFromIs(text, p + 1, p + 1 + |d|, IsDigit);
      }
    }
    if RefAt(text, p) == Some(id) && id.Star? {
      assert text[p + 1..p + 2] == [text[p + 1]];
    }
  }

  /** The end of a reference `[id]`. */
  function RefEnd(r: Reference): nat { r.pos + IdLen(r.id) + 2 }

  /** `re.finditer` over the reference pattern from `p`: the references start at or
      after `p`, and each starts after the one before it ends. */
  function References(text: string, p: nat): (rs: seq<Reference>)
    ensures forall i :: 0 <= i < |rs| ==> p <= rs[i].pos
    ensures forall i :: 0 < i < |rs| ==> RefEnd(rs[i - 1]) <= rs[i].pos
    ensures forall i :: 0 <= i < |rs| ==> RefAt(text, rs[i].pos) == Some(rs[i].id)
    decreases |text| - p
  {
    if p >= |text| then []
    else
      match RefAt(text, p)
      case Some(id) =>
        var rest := References(text, p + IdLen(id) + 2);
        FoundCons(text, p, Reference(id, p), rest);
        [Reference(id, p)] + rest
      case None => References(text, p + 1)
  }

  /** A match at `p` followed by references found after it ends is a list of
      references found from `p`. */
  lemma FoundCons(text: string, p: nat, r: Reference, rest: seq<Reference>)
    requires r.pos == p && RefAt(text, p) == Some(r.id)
    requires forall i :: 0 <= i < |rest| ==> RefEnd(r) <= rest[i].pos
    requires forall i :: 0 < i < |rest| ==> RefEnd(rest[i - 1]) <= rest[i].pos
    requires forall i :: 0 <= i < |rest| ==> RefAt(text, rest[i].pos) == Some(rest[i].id)
    ensures var rs := [r] + rest;
      (forall i :: 0 <= i < |rs| ==> p <= rs[i].pos) &&
      (forall i :: 0 < i < |rs| ==> RefEnd(rs[i - 1]) <= rs[i].pos) &&
      (forall i :: 0 <= i < |rs| ==> RefAt(text, rs[i].pos) == Some(rs[i].id))
  {
    var rs := [r] + rest;
    assert forall i :: 0 < i < |rs| ==> rs[i] == rest[i - 1];
  }

  /** One step of the search: a match at `p` is reported and the search resumes
      after it; otherwise it resumes at the next position. */
  lemma ReferencesStep(text: string, p: nat)
    requires p < |text|
    ensures RefAt(text, p).Some? ==>
      References(text, p) == [Reference(RefAt(text, p).value, p)] + References(text, p + IdLen(RefAt(text, p).value) + 2)
    ensures RefAt(text, p).None? ==> References(text, p) == References(text, p + 1)
  {
  }

  /** Every reference `finditer` reports is a match of the reference pattern. */
  lemma ReferencesMatch(text: string, p: nat, i: nat)
    requires i < |References(text, p)|
    ensures RefAt(text, References(text, p)[i].pos) == Some(References(text, p)[i].id)
  {
  }

  /** The references do not overlap: each starts after every earlier one ends. */
  lemma {:induction false} ReferencesApart(text: string, p: nat, i: nat, j: nat)
    requires i < j < |References(text, p)|
    ensures RefEnd(References(text, p)[i]) <= References(text, p)[j].pos
  {
    ChainApart(References(text, p), i, j);
  }

  /** In a list where each reference starts after the one before it ends, every
      reference starts after all earlier ones end. */
  lemma {:induction false} ChainApart(rs: seq<Reference>, i: nat, j: nat)
    requires i < j < |rs|
    requires forall k :: 0 < k < |rs| ==> RefEnd(rs[k - 1]) <= rs[k].pos
    ensures RefEnd(rs[i]) <= rs[j].pos
    decreases j - i
  {
    if i + 1 < j {
      ChainApart(rs, i + 1, j);
      assert RefEnd(rs[i]) <= rs[i + 1].pos;
    }
  }

  // ---------------------------------------------------------------------------
  // Content blocks

  /** Length of the marker of a block with this id: `n.` or `*`. */
  function MarkerLen(id: NoteId): nat {
    match id
    case Star => 1
    case Number(d) => |d| + 1
  }

  /** `(?:(\d+)\.|\*)` at `a`: the id of the marker there (`*` for the bare star). */
  function MarkerAt(text: string, a: nat): (r: Option<NoteId>)
    ensures r.Some? ==> WellFormed(r.value) && a + MarkerLen(r.value) <= |text|
  {
    if a < |text| && text[a] == '*' then Some(Star)
    else if a < |text| then
      var n := RunFrom(text, a, IsDigit);
      if n > 0 && a + n < |text| && text[a + n] == '.' then Some(Number(text[a..a + n])) else None
    else None
  }

  /** `\s*(?:\d+\.|\*)\s+` at `q`. The whitespace before the marker is taken whole,
      since a marker cannot start with whitespace. */
  predicate MarkerAhead(text: string, q: nat)
    requires q <= |text|
  {
    var a := q + RunFrom(text, q, IsSpace);
    match MarkerAt(text, a)
    case None => false
    case Some(id) => a + MarkerLen(id) < |text| && IsSpace(text[a + MarkerLen(id)])
  }

  /** The lookahead `(?=\n\s*(?:\d+\.|\*)\s+|\Z)` at `e`. */
  predicate BlockEnds(text: string, e: nat)
    requires e <= |text|
  {
    e == |text| || (text[e] == '\n' && MarkerAhead(text, e + 1))
  }

  /** The body `(.+?)` can start at `s`: it takes at least one character, cannot
      cross a line feed, and so must stop at the end of the line, where the
      lookahead has to hold. */
  predicate BodyFits(text: string, s: nat)
    requires s <= |text|
  {
    s < |text| && text[s] != '\n' && BlockEnds(text, NextNewline(text, s))
  }

  /** `\s+` takes the whitespace `[b, c)` and gives characters back one at a time until
      the body fits: the latest start in `(b, c]` that fits, or -1. */
  function BodyStart(text: string, b: nat, c: nat): (s: int)
    requires b <= c <= |text|
    ensures s == -1 || (b < s <= c && BodyFits(text, s))
    ensures forall k :: (if s == -1 then b else s) < k <= c ==> !BodyFits(text, k)
    decreases c - b
  {
    if c <= b then -1
    else if BodyFits(text, c) then c
    else
      var s := BodyStart(text, b, c - 1);
      NoLaterFit(text, if s == -1 then b else s, c);
      s
  }

  /** No start fits after `m` up to `c` when none does up to `c - 1` and `c` does not. */
  lemma NoLaterFit(text: string, m: int, c: nat)
    requires 0 <= m < c <= |text| && !BodyFits(text, c)
    requires forall k :: m < k <= c - 1 ==> !BodyFits(text, k)
    ensures forall k :: m < k <= c ==> !BodyFits(text, k)
  {
  }

  /** `^` with `re.MULTILINE`. */
  predicate LineStart(text: string, p: nat) {
    p == 0 || (0 < p <= |text| && text[p - 1] == '\n')
  }

  /** The content pattern tried at `p`: the block, with `match.start()` and
      `match.end()` as its span. */
  function BlockAt(text: string, p: nat): (r: Option<Block>)
    requires p <= |text|
    ensures r.Some? ==> r.value.start == p < r.value.end <= |text| && WellFormed(r.value.id)
    ensures r.Some? ==> '\n' !in r.value.body
  {
    if !LineStart(text, p) then None
    else
      var a := p + RunFrom(text, p, IsSpace);
      match MarkerAt(text, a)
      case None => None
      case Some(id) => BodyBlock(text, p, id, a + MarkerLen(id))
  }

  /** The rest of the content pattern once the marker `id` ends at `b`: `\s+`, then the
      body up to the end of the line. */
  function BodyBlock(text: string, p: nat, id: NoteId, b: nat): (r: Option<Block>)
    requires p < b <= |text| && WellFormed(id)
    ensures r.Some? ==> r.value.start == p < r.value.end <= |text| && r.value.id == id
    ensures r.Some? ==> '\n' !in r.value.body
  {
    var c := b + RunFrom(text, b, IsSpace);
    var s := BodyStart(text, b, c);
    if s == -1 then None
    else
      var e := NextNewline(text, s);
      var body := text[s..e];
      assert '\n' !in body;
      Some(Block(id, body, p, e))
  }

  /** `re.finditer` over the content pattern from `p`. */
  function Blocks(text: string, p: nat): (bs: seq<Block>)
    requires p <= |text| + 1
    ensures forall i :: 0 <= i < |bs| ==> p <= bs[i].start < bs[i].end <= |text|
    decreases |text| + 1 - p
  {
    if p > |text| then []
    else
      match BlockAt(text, p)
      case Some(b) =>
        var rest := Blocks(text, b.end);
        BlocksCons(text, p, b, rest);
        [b] + rest
      case None => Blocks(text, p + 1)
  }

  /** A block at `p` followed by blocks found after it ends lie after `p`. */
  lemma BlocksCons(text: string, p: nat, b: Block, rest: seq<Block>)
    requires p <= b.start < b.end <= |text|
    requires forall i :: 0 <= i < |rest| ==> b.end <= rest[i].start < rest[i].end <= |text|
    ensures forall i :: 0 <= i < |[b] + rest| ==> p <= ([b] + rest)[i].start < ([b] + rest)[i].end <= |text|
  {
    assert forall i :: 0 < i < |[b] + rest| ==> ([b] + rest)[i] == rest[i - 1];
  }

  /** Every block `finditer` reports is a match of the content pattern at its start. */
  lemma {:induction false} BlocksMatch(text: string, p: nat, i: nat)
    requires p <= |text| + 1 && i < |Blocks(text, p)|
    ensures BlockAt(text, Blocks(text, p)[i].start) == Some(Blocks(text, p)[i])
    decreases |text| + 1 - p
  {
    var m := BlockAt(text, p);
    if m.Some? {
      if i > 0 {
        BlocksMatch(text, m.value.end, i - 1);
      }
    } else {
      BlocksMatch(text, p + 1, i);
    }
  }

  /** `re.sub` of the content pattern with `''` from `p`: every block is cut out and the
      rest is kept in order. */
  function RemoveBlocks(text: string, p: nat): (r: string)
    requires p <= |text| + 1
    ensures |r| <= |text| + 1 - p
    decreases |text| + 1 - p
  {
    if p > |text| then []
    else
      var m := BlockAt(text, p);
      if m.Some? then RemoveBlocks(text, m.value.end)
      else (if p < |text| then [text[p]] else []) + RemoveBlocks(text, p + 1)
  }

  /** A text in which no block starts is left as it is. */
  lemma {:induction false} RemoveNothing(text: string, p: nat)
    requires p <= |text|
    requires forall q :: p <= q <= |text| ==> BlockAt(text, q).None?
    ensures RemoveBlocks(text, p) == text[p..]
    decreases |text| - p
  {
    if p < |text| {
      RemoveNothing(text, p + 1);
      assert text[p..] == [text[p]] + text[p + 1..];
    }
  }

  // ---------------------------------------------------------------------------
  // Pairing

  /** The records of one content block: one per reference carrying its id, in the
      order of the references. */
  function RecordsFor(b: Block, rs: seq<Reference>): (fs: seq<Footnote>)
    ensures |fs| <= |rs|
  {
    if rs == [] then []
    else (if rs[0].id == b.id then [Footnote(b.id, Strip(b.body), rs[0].pos, b.start)] else []) + RecordsFor(b, rs[1..])
  }

  /** The records of all blocks, block by block. */
  function Records(bs: seq<Block>, rs: seq<Reference>): seq<Footnote> {
    if bs == [] then [] else RecordsFor(bs[0], rs) + Records(bs[1..], rs)
  }

  /** The record a block and a reference with the same id give; the body is stripped
      here, as the record is built. */
  function Pair(b: Block, r: Reference): Footnote {
    Footnote(b.id, Strip(b.body), r.pos, b.start)
  }

  lemma {:induction false} RecordsForIff(b: Block, rs: seq<Reference>, f: Footnote)
    ensures f in RecordsFor(b, rs) <==> exists j :: 0 <= j < |rs| && rs[j].id == b.id && f == Pair(b, rs[j])
  {
    if rs != [] {
      RecordsForIff(b, rs[1..], f);
      if exists j :: 0 <= j < |rs| && rs[j].id == b.id && f == Pair(b, rs[j]) {
        var j :| 0 <= j < |rs| && rs[j].id == b.id && f == Pair(b, rs[j]);
        if j > 0 {
          assert rs[1..][j - 1] == rs[j];
        }
      }
      if f in RecordsFor(b, rs[1..]) {
        var j :| 0 <= j < |rs[1..]| && rs[1..][j].id == b.id && f == Pair(b, rs[1..][j]);
        assert rs[j + 1] == rs[1..][j];
      }
    }
  }

  /** A record is exactly a block paired with a reference carrying the same id; a
      reference without content and a block without references give nothing. */
  lemma {:induction false} RecordsIff(bs: seq<Block>, rs: seq<Reference>, f: Footnote)
    ensures f in Records(bs, rs) <==>
      exists i, j :: 0 <= i < |bs| && 0 <= j < |rs| && rs[j].id == bs[i].id && f == Pair(bs[i], rs[j])
  {
    if bs != [] {
      RecordsForIff(bs[0], rs, f);
      RecordsIff(bs[1..], rs, f);
      PairedHead(bs, rs, f);
    }
  }

  /** A pairing drawn from `bs` comes from its first block or from the rest. */
  lemma PairedHead(bs: seq<Block>, rs: seq<Reference>, f: Footnote)
    requires bs != []
    ensures (exists i, j :: 0 <= i < |bs| && 0 <= j < |rs| && rs[j].id == bs[i].id && f == Pair(bs[i], rs[j])) <==>
      (exists j :: 0 <= j < |rs| && rs[j].id == bs[0].id && f == Pair(bs[0], rs[j])) ||
      (exists i, j :: 0 <= i < |bs[1..]| && 0 <= j < |rs| && rs[j].id == bs[1..][i].id && f == Pair(bs[1..][i], rs[j]))
  {
    if exists i, j :: 0 <= i < |bs| && 0 <= j < |rs| && rs[j].id == bs[i].id && f == Pair(bs[i], rs[j]) {
      var i, j :| 0 <= i < |bs| && 0 <= j < |rs| && rs[j].id == bs[i].id && f == Pair(bs[i], rs[j]);
      if i > 0 {
        assert bs[1..][i - 1] == bs[i];
      }
    }
    if exists i, j :: 0 <= i < |bs[1..]| && 0 <= j < |rs| && rs[j].id == bs[1..][i].id && f == Pair(bs[1..][i], rs[j]) {
      var i, j :| 0 <= i < |bs[1..]| && 0 <= j < |rs| && rs[j].id == bs[1..][i].id && f == Pair(bs[1..][i], rs[j]);
      assert bs[i + 1] == bs[1..][i];
    }
  }

  function RefPosKey(f: Footnote): int { f.referencePos }

  /** The records of `extract_footnotes` before sorting. */
  function Unsorted(text: string): seq<Footnote> {
    Records(Blocks(text, 0), References(text, 0))
  }

  /** `extract_footnotes`: every pairing of a content block with a reference of the
      same id, stably sorted by reference position. */
  function ExtractFootnotes(text: string): (fs: seq<Footnote>)
    ensures SortedBy(fs, RefPosKey)
    ensures multiset(fs) == multiset(Unsorted(text))
  {
    SortByKey(Unsorted(text), RefPosKey)
  }

  /** Every extracted record pairs a content block found in the text with a reference
      written in the text, and every such pairing is extracted. */
  lemma ExtractFootnotesIff(text: string, f: Footnote)
    ensures f in ExtractFootnotes(text) <==>
      exists i, j :: 0 <= i < |Blocks(text, 0)| && 0 <= j < |References(text, 0)| &&
        References(text, 0)[j].id == Blocks(text, 0)[i].id && f == Pair(Blocks(text, 0)[i], References(text, 0)[j])
  {
    assert f in ExtractFootnotes(text) <==> f in multiset(Unsorted(text));
    RecordsIff(Blocks(text, 0), References(text, 0), f);
  }

  /** The block and the reference an extracted record was made from. */
  lemma RecordSource(text: string, f: Footnote) returns (i: nat, j: nat)
    requires f in ExtractFootnotes(text)
    ensures i < |Blocks(text, 0)| && j < |References(text, 0)|
    ensures References(text, 0)[j].id == Blocks(text, 0)[i].id && f == Pair(Blocks(text, 0)[i], References(text, 0)[j])
  {
    ExtractFootnotesIff(text, f);
    i, j :| 0 <= i < |Blocks(text, 0)| && 0 <= j < |References(text, 0)| &&
      References(text, 0)[j].id == Blocks(text, 0)[i].id && f == Pair(Blocks(text, 0)[i], References(text, 0)[j]);
  }

  /** Some reference in `rs` is the one `f` was paired with. */
  predicate OnReference(f: Footnote, rs: seq<Reference>) {
    exists j :: 0 <= j < |rs| && rs[j].id == f.id && rs[j].pos == f.referencePos
  }

  /** The reference written at an extracted record's position carries its id. */
  lemma RefOfRecord(text: string, f: Footnote)
    requires f in ExtractFootnotes(text)
    ensures OnReference(f, References(text, 0))
    ensures 0 <= f.referencePos && f.referencePos + IdLen(f.id) + 2 <= |text| && WellFormed(f.id)
  {
    var i, j := RecordSource(text, f);
    var r := References(text, 0)[j];
    ReferencesMatch(text, 0, j);
    assert r.id == f.id && r.pos == f.referencePos;
  }

  /** Every extracted record has a one-line content and a well-formed id. */
  lemma RecordIsOneLine(text: string, f: Footnote)
    requires f in ExtractFootnotes(text)
    ensures '\n' !in f.content && '\n' !in IdText(f.id)
  {
    var i, j := RecordSource(text, f);
    BlocksMatch(text, 0, i);
    IdOneLine(f.id);
  }

  // ---------------------------------------------------------------------------
  // Conversion

  /** `[^id]`, the Markdown form of a reference. */
  function NoteRef(idText: string): string { "[^" + idText + "]" }

  /** The rewrite of one record's reference: `[id]` becomes `[^id]`, one character
      longer, which is the step the loop adds to its offset. */
  function RefEdit(f: Footnote): (e: Edit)
    ensures e.start == f.referencePos && e.end == f.referencePos + IdLen(f.id) + 2
    ensures Delta(e) == 1
  {
    Edit(f.referencePos, f.referencePos + IdLen(f.id) + 2, NoteRef(IdText(f.id)))
  }

  /** The rewrites of the records, in record order. */
  function RefEdits(fs: seq<Footnote>): seq<Edit> {
    seq(|fs|, i requires 0 <= i < |fs| => RefEdit(fs[i]))
  }

  lemma RefEditsOne(fs: seq<Footnote>)
    requires |fs| == 1
    ensures RefEdits(fs) == [RefEdit(fs[0])]
  {
  }

  /** `[^id]: content`, one line of the footnote section. */
  function EntryLine(f: Footnote): string { NoteRef(IdText(f.id)) + ": " + f.content }

  /** The lines the loop appends, each after a line feed, last record first. */
  function SectionLines(fs: seq<Footnote>): string {
    if fs == [] then "" else SectionLines(fs[1..]) + "\n" + EntryLine(fs[0])
  }

  const SectionHeader: string := "\n\n---\n"

  /** `convert_to_markdown`: the references rewritten from the last record to the
      first with the accumulated offset, the content blocks cut out, the rest
      stripped and the footnote section appended. */
  function Convert(text: string): (r: string)
    ensures text == [] || ExtractFootnotes(text) == [] ==> r == text
    ensures text != [] && ExtractFootnotes(text) != [] ==> EndsWith(r, SectionHeader + SectionLines(ExtractFootnotes(text)))
  {
    if text == [] then text
    else
      var fs := ExtractFootnotes(text);
      if fs == [] then text
      else
        var body := Strip(RemoveBlocks(ReverseFold(text, 0, RefEdits(fs)), 0));
        var section := SectionHeader + SectionLines(fs);
        assert (body + section)[|body|..] == section;
        body + section
  }

  /** The loop of `convert_to_markdown`, with the offset it keeps. */
  method ConvertToMarkdown(text: string) returns (result: string)
    ensures result == Convert(text)
  {
    if text == [] {
      return text;
    }
    var fs := ExtractFootnotes(text);
    if fs == [] {
      return text;
    }
    var section;
    result, section := RewriteReferences(text, fs);
    result := Strip(RemoveBlocks(result, 0)) + section;
  }

  /** The loop of `convert_to_markdown`: each reference rewritten from the last record
      to the first, shifted by the offset the rewrites so far have accumulated, and
      the section lines gathered in the same order. */
  method RewriteReferences(text: string, fs: seq<Footnote>) returns (result: string, section: string)
    ensures result == ReverseFold(text, 0, RefEdits(fs))
    ensures section == SectionHeader + SectionLines(fs)
  {
    result := ApplyFromLast(text, RefEdits(fs));
    section := SectionHeader;
    var i := |fs|;
    while i > 0
      invariant 0 <= i <= |fs|
      invariant section == SectionHeader + SectionLines(fs[i..])
    {
      SectionLinesStep(fs, i, section);
      section := section + "\n" + EntryLine(fs[i - 1]);
      i := i - 1;
    }
  }

  lemma SectionLinesStep(fs: seq<Footnote>, i: nat, section: string)
    requires 0 < i <= |fs| && section == SectionHeader + SectionLines(fs[i..])
    ensures section + "\n" + EntryLine(fs[i - 1]) == SectionHeader + SectionLines(fs[i - 1..])
  {
    assert fs[i - 1..][1..] == fs[i..];
    var x, y := SectionLines(fs[i..]), "\n" + EntryLine(fs[i - 1]);
    assert SectionLines(fs[i - 1..]) == x + y;
    Regroup3(SectionHeader, x, y);
  }

  /** The entry lines in the order the loop appends them: the last record's first. */
  function Entries(fs: seq<Footnote>): (es: seq<string>)
    ensures |es| == |fs|
  {
    if fs == [] then [] else Entries(fs[1..]) + [EntryLine(fs[0])]
  }

  /** Line `k` of the entries is the line of record `|fs| - 1 - k`. */
  lemma {:induction false} EntriesReversed(fs: seq<Footnote>, k: nat)
    requires k < |fs|
    ensures Entries(fs)[k] == EntryLine(fs[|fs| - 1 - k])
  {
    if k < |fs| - 1 {
      EntriesReversed(fs[1..], k);
      assert fs[1..][|fs| - 2 - k] == fs[|fs| - 1 - k];
    }
  }

  lemma {:induction false} SectionLinesJoin(fs: seq<Footnote>)
    requires fs != []
    ensures SectionLines(fs) == "\n" + Join(Entries(fs), "\n")
  {
    var x := EntryLine(fs[0]);
    if |fs| == 1 {
      assert fs[1..] == [];
      assert Entries(fs) == [x];
    } else {
      SectionLinesJoin(fs[1..]);
      var e := Entries(fs[1..]);
      JoinAppend(e, [x], "\n");
      assert Join([x], "\n") == x;
      Regroup3("\n", Join(e, "\n"), "\n" + x);
    }
  }

  const HeaderLines: seq<string> := ["", "", "---", ""]

  /** The header is the first four lines of the section. */
  lemma HeaderJoin()
    ensures Join(HeaderLines, "\n") == SectionHeader
    ensures forall k :: 0 <= k < |HeaderLines| ==> '\n' !in HeaderLines[k]
  {
    JoinCons("", ["", "---", ""], "\n");
    JoinCons("", ["---", ""], "\n");
    JoinCons("---", [""], "\n");
  }

  lemma EntryLineOneLine(f: Footnote)
    requires '\n' !in IdText(f.id) && '\n' !in f.content
    ensures '\n' !in EntryLine(f)
  {
    var a, b := "[^", "]: ";
    assert '\n' !in a && '\n' !in b;
    assert EntryLine(f) == a + IdText(f.id) + b + f.content;
  }

  lemma EntriesOneLine(fs: seq<Footnote>)
    requires forall i :: 0 <= i < |fs| ==> '\n' !in EntryLine(fs[i])
    ensures forall k :: 0 <= k < |Entries(fs)| ==> '\n' !in Entries(fs)[k]
  {
    forall k | 0 <= k < |fs|
      ensures '\n' !in Entries(fs)[k]
    {
      EntriesReversed(fs, k);
    }
  }

  /** The footnote section read back line by line: two empty lines, the rule, an
      empty line, then one `[^id]: content` line per record, the last record first. */
  lemma SectionReadBack(fs: seq<Footnote>)
    requires fs != []
    requires forall i :: 0 <= i < |fs| ==> '\n' !in EntryLine(fs[i])
    ensures Split(SectionHeader + SectionLines(fs), '\n') == HeaderLines + Entries(fs)
  {
    SectionLinesJoin(fs);
    HeaderJoin();
    EntriesOneLine(fs);
    SplitJoinAppend(HeaderLines, Entries(fs), '\n');
  }

  /** The section of a converted text reads back as one line per extracted record. */
  lemma ExtractedSectionReadBack(text: string, fs: seq<Footnote>)
    requires fs == ExtractFootnotes(text) && fs != []
    ensures Split(SectionHeader + SectionLines(fs), '\n') == HeaderLines + Entries(fs)
  {
    forall i | 0 <= i < |fs|
      ensures '\n' !in EntryLine(fs[i])
    {
      RecordIsOneLine(text, fs[i]);
      EntryLineOneLine(fs[i]);
    }
    SectionReadBack(fs);
  }

  // ---------------------------------------------------------------------------
  // Where the offset goes wrong

  /** The records' reference positions are pairwise distinct, which fails only when
      two content blocks carry the same id. */
  predicate DistinctPositions(fs: seq<Footnote>) {
    forall i, j :: 0 <= i < j < |fs| ==> fs[i].referencePos != fs[j].referencePos
  }

  /** Sorted records with distinct positions, each on one of a run of non-overlapping
      references inside a text of length `n`, rewrite disjoint spans in order. */
  lemma {:induction false} EditsApartFrom(fs: seq<Footnote>, rs: seq<Reference>, n: nat)
    requires SortedBy(fs, RefPosKey) && DistinctPositions(fs) && Grounded(fs, rs, n)
    ensures Disjoint(RefEdits(fs), 0, n)
  {
    var es := RefEdits(fs);
    forall i | 0 <= i < |es|
      ensures 0 <= es[i].start <= es[i].end <= n
    {
      assert OnReference(fs[i], rs);
    }
    forall i, j | 0 <= i < j < |es|
      ensures es[i].end <= es[j].start
    {
      assert RefPosKey(fs[i]) <= RefPosKey(fs[j]);
      RecordsApart(fs[i], fs[j], rs);
    }
    DisjointIsPairwise(es, 0, n);
  }

  /** Two records on references of a non-overlapping run, the first at the smaller
      position, have non-overlapping references. */
  lemma RecordsApart(f: Footnote, g: Footnote, rs: seq<Reference>)
    requires OnReference(f, rs) && OnReference(g, rs) && f.referencePos < g.referencePos
    requires forall a, b :: 0 <= a < b < |rs| ==> RefEnd(rs[a]) <= rs[b].pos
    ensures f.referencePos + IdLen(f.id) + 2 <= g.referencePos
  {
    var a :| 0 <= a < |rs| && rs[a].id == f.id && rs[a].pos == f.referencePos;
    var b :| 0 <= b < |rs| && rs[b].id == g.id && rs[b].pos == g.referencePos;
    assert RefEnd(rs[a]) <= rs[b].pos;
  }

  /** Every record sits on one of the references `rs`, which lie apart, in order,
      inside a text of length `n`. */
  predicate Grounded(fs: seq<Footnote>, rs: seq<Reference>, n: nat) {
    (forall i :: 0 <= i < |fs| ==> OnReference(fs[i], rs)) &&
    (forall j :: 0 <= j < |rs| ==> RefEnd(rs[j]) <= n) &&
    (forall a, b :: 0 <= a < b < |rs| ==> RefEnd(rs[a]) <= rs[b].pos)
  }

  lemma ExtractedGrounded(text: string)
    ensures Grounded(ExtractFootnotes(text), References(text, 0), |text|)
  {
    RecordsOnReferences(text);
    ReferencesInText(text);
    ReferencesInOrder(text);
  }

  /** With distinct positions the rewrites of the extracted records are disjoint spans
      of the text, in order: the records are sorted by position and the references
      `finditer` reports do not overlap. */
  lemma ExtractedEditsApart(text: string, fs: seq<Footnote>)
    requires fs == ExtractFootnotes(text) && DistinctPositions(fs)
    ensures Disjoint(RefEdits(fs), 0, |text|)
  {
    ExtractedGrounded(text);
    EditsApartFrom(fs, References(text, 0), |text|);
  }

  lemma RecordsOnReferences(text: string)
    ensures forall i :: 0 <= i < |ExtractFootnotes(text)| ==> OnReference(ExtractFootnotes(text)[i], References(text, 0))
  {
    var fs := ExtractFootnotes(text);
    forall i | 0 <= i < |fs|
      ensures OnReference(fs[i], References(text, 0))
    {
      RefOfRecord(text, fs[i]);
    }
  }

  lemma ReferencesInText(text: string)
    ensures forall j :: 0 <= j < |References(text, 0)| ==> RefEnd(References(text, 0)[j]) <= |text|
  {
    var rs := References(text, 0);
    forall j | 0 <= j < |rs|
      ensures RefEnd(rs[j]) <= |text|
    {
      ReferencesMatch(text, 0, j);
    }
  }

  lemma ReferencesInOrder(text: string)
    ensures forall a, b :: 0 <= a < b < |References(text, 0)| ==> RefEnd(References(text, 0)[a]) <= References(text, 0)[b].pos
  {
    var rs := References(text, 0);
    forall a, b | 0 <= a < b < |rs|
      ensures RefEnd(rs[a]) <= rs[b].pos
    {
      ReferencesApart(text, 0, a, b);
    }
  }

  /** With a single record the accumulated offset is never used, and the rewrite is
      exact: `[id]` at the reference position becomes `[^id]` and nothing else moves. */
  lemma SingleRecordExact(text: string, fs: seq<Footnote>)
    requires fs == ExtractFootnotes(text) && |fs| == 1
    ensures var p, n := fs[0].referencePos, IdLen(fs[0].id);
      0 <= p && p + n + 2 <= |text| &&
      ReverseFold(text, 0, RefEdits(fs)) == text[..p] + NoteRef(IdText(fs[0].id)) + text[p + n + 2..]
  {
    RefOfRecord(text, fs[0]);
    SingleEditExact(text, fs);
  }

  lemma SingleEditExact(text: string, fs: seq<Footnote>)
    requires |fs| == 1
    requires 0 <= fs[0].referencePos && fs[0].referencePos + IdLen(fs[0].id) + 2 <= |text|
    ensures ReverseFold(text, 0, RefEdits(fs)) ==
      text[..fs[0].referencePos] + NoteRef(IdText(fs[0].id)) + text[fs[0].referencePos + IdLen(fs[0].id) + 2..]
  {
    RefEditsOne(fs);
    OneEditExact(text, fs[0]);
  }

  /** One rewrite applied with no offset is exact. */
  lemma OneEditExact(text: string, f: Footnote)
    requires 0 <= f.referencePos && f.referencePos + IdLen(f.id) + 2 <= |text|
    ensures ReverseFold(text, 0, [RefEdit(f)]) ==
      text[..f.referencePos] + NoteRef(IdText(f.id)) + text[f.referencePos + IdLen(f.id) + 2..]
  {
    var e := RefEdit(f);
    assert e.repl == NoteRef(IdText(f.id));
    SpliceOne(text, e);
  }

  /** The two-reference example `"a[1]b[2]c\n1. x\n2. y"`, character by character:
      two references, then their content blocks on the following lines. */
  predicate DriftText(text: string) {
    && |text| == 19
    && text[0] == 'a' && text[1] == '[' && text[2] == '1' && text[3] == ']' && text[4] == 'b'
    && text[5] == '[' && text[6] == '2' && text[7] == ']' && text[8] == 'c' && text[9] == '\n'
    && text[10] == '1' && text[11] == '.' && text[12] == ' ' && text[13] == 'x' && text[14] == '\n'
    && text[15] == '2' && text[16] == '.' && text[17] == ' ' && text[18] == 'y'
  }

  /** The records extracted from the example text. */
  function DriftRecords(): seq<Footnote> {
    [Footnote(Number("1"), "x", 1, 10), Footnote(Number("2"), "y", 5, 15)]
  }

  /** Two references in one text: the as-written loop rewrites the second, then shifts
      the first by the one character the second rewrite added, and so cuts into the
      text before it. */
  lemma TwoReferencesDrift(text: string)
    requires DriftText(text)
    ensures ExtractFootnotes(text) == DriftRecords()
    ensures Disjoint(RefEdits(DriftRecords()), 0, |text|)
    ensures ReverseFold(text, 0, RefEdits(DriftRecords())) == "a[[^1][^2]" + text[8..]
    ensures Rebuild(text, RefEdits(DriftRecords()), 0) == "a[^1]b[^2]" + text[8..]
  {
    DriftExtracted(text);
    DriftPrefix(text);
    DriftRewrites(text);
  }

  /** Both rewrites of the example's records on a text opening with `a[1]b[2]`. */
  lemma DriftRewrites(text: string)
    requires |text| >= 8 && text[..8] == "a[1]b[2]"
    ensures Disjoint(RefEdits(DriftRecords()), 0, |text|)
    ensures ReverseFold(text, 0, RefEdits(DriftRecords())) == "a[[^1][^2]" + text[8..]
    ensures Rebuild(text, RefEdits(DriftRecords()), 0) == "a[^1]b[^2]" + text[8..]
  {
    DriftEdits();
    assert text == text[..8] + text[8..];
    DriftAsWritten(text, text[8..], Edit(1, 4, "[^1]"), Edit(5, 8, "[^2]"));
    DriftIntended(text, text[8..], Edit(1, 4, "[^1]"), Edit(5, 8, "[^2]"));
  }

  /** The example opens with the two references. */
  lemma DriftPrefix(text: string)
    requires DriftText(text)
    ensures |text| >= 8 && text[..8] == "a[1]b[2]"
  {
    assert text[..8] == [text[0], text[1], text[2], text[3], text[4], text[5], text[6], text[7]];
  }

  /** The rewrites of the example's records. */
  lemma DriftEdits()
    ensures RefEdits(DriftRecords()) == [Edit(1, 4, "[^1]"), Edit(5, 8, "[^2]")]
  {
    var fs := DriftRecords();
    assert NoteRef(IdText(Number("1"))) == "[^1]" && NoteRef(IdText(Number("2"))) == "[^2]";
    assert RefEdit(fs[0]) == Edit(1, 4, "[^1]") && RefEdit(fs[1]) == Edit(5, 8, "[^2]");
  }

  /** The as-written loop on the two rewrites: the second first, then the first
      shifted by one. */
  lemma DriftAsWritten(text: string, t: string, e1: Edit, e2: Edit)
    requires text == "a[1]b[2]" + t && e1 == Edit(1, 4, "[^1]") && e2 == Edit(5, 8, "[^2]")
    ensures ReverseFold(text, 0, [e1, e2]) == "a[[^1][^2]" + t
  {
    var r1 := Apply(text, 0, e2);
    assert ReverseFold(text, 0, [e1, e2]) == ReverseFrom(r1, 1, [e1, e2], 1) == Apply(r1, 1, e1);
    ApplyInside(text, e2);
    assert text[..5] == "a[1]b" && text[8..] == t;
    assert r1 == "a[1]b[^2]" + t;
    assert r1[..2] == "a[" && r1[5..] == "[^2]" + t;
    assert Apply(r1, 1, e1) == "a[" + "[^1]" + ("[^2]" + t);
  }

  /** The intended result on the same rewrites: each span replaced in place. */
  lemma DriftIntended(text: string, t: string, e1: Edit, e2: Edit)
    requires text == "a[1]b[2]" + t && e1 == Edit(1, 4, "[^1]") && e2 == Edit(5, 8, "[^2]")
    ensures Disjoint([e1, e2], 0, |text|)
    ensures Rebuild(text, [e1, e2], 0) == "a[^1]b[^2]" + t
  {
    RebuildOne(text, e2, 4);
    assert text[4..5] == "b" && text[8..] == t;
    assert [e1, e2][1..] == [e2];
    assert Rebuild(text, [e1, e2], 0) == text[0..1] + "[^1]" + Rebuild(text, [e2], 4);
  }

  /** The example's records: each reference paired with the block of its id, already
      in reference order. */
  lemma DriftExtracted(text: string)
    requires DriftText(text)
    ensures ExtractFootnotes(text) == DriftRecords()
  {
    DriftReferences(text);
    DriftBlocks(text);
    DriftPairs();
    assert Unsorted(text) == DriftRecords();
    DriftSorted();
  }

  /** The example's records are already in reference order. */
  lemma DriftSorted()
    ensures SortByKey(DriftRecords(), RefPosKey) == DriftRecords()
  {
    SortSorted(DriftRecords(), RefPosKey);
  }

  /** Each example block meets the one reference carrying its id. */
  lemma DriftPairs()
    ensures Records([Block(Number("1"), "x", 10, 14), Block(Number("2"), "y", 15, 19)],
      [Reference(Number("1"), 1), Reference(Number("2"), 5)]) == DriftRecords()
  {
    var r1, r2 := Reference(Number("1"), 1), Reference(Number("2"), 5);
    var b1, b2 := Block(Number("1"), "x", 10, 14), Block(Number("2"), "y", 15, 19);
    assert Number("1") != Number("2") by { assert "1"[0] != "2"[0]; }
    StripOfTrimmed("x");
    StripOfTrimmed("y");
    assert [r1, r2][1..] == [r2] && [r2][1..] == [] && [b1, b2][1..] == [b2] && [b2][1..] == [];
    assert RecordsFor(b1, [r2]) == [];
    assert RecordsFor(b1, [r1, r2]) == [Pair(b1, r1)];
    assert RecordsFor(b2, [r1, r2]) == RecordsFor(b2, [r2]) == [Pair(b2, r2)];
    assert Records([b2], [r1, r2]) == [Pair(b2, r2)];
  }

  /** The references of the example: `[1]` at 1 and `[2]` at 5. */
  lemma DriftReferences(text: string)
    requires DriftText(text)
    ensures References(text, 0) == [Reference(Number("1"), 1), Reference(Number("2"), 5)]
  {
    DriftSecondRef(text);
    DriftRefAt(text, 1, "1");
    RefFound(text, 1, Number("1"));
    RefSkipped(text, 0);
  }

  lemma DriftSecondRef(text: string)
    requires DriftText(text)
    ensures References(text, 4) == [Reference(Number("2"), 5)]
  {
    NoBracketSkip(text, 8);
    DriftRefAt(text, 5, "2");
    RefFound(text, 5, Number("2"));
    RefSkipped(text, 4);
  }

  /** No `[` at `p`: the search moves on by one. */
  lemma RefSkipped(text: string, p: nat)
    requires p < |text| && text[p] != '['
    ensures References(text, p) == References(text, p + 1)
  {
    ReferencesStep(text, p);
  }

  /** A reference at `p` is reported and the search resumes after it. */
  lemma RefFound(text: string, p: nat, id: NoteId)
    requires p < |text| && RefAt(text, p) == Some(id)
    ensures References(text, p) == [Reference(id, p)] + References(text, p + IdLen(id) + 2)
  {
  }

  /** The reference pattern finds a one-digit `[d]` at `p`. */
  lemma DriftRefAt(text: string, p: nat, d: string)
    requires p + 3 <= |text| && text[p] == '[' && |d| == 1 && text[p + 1] == d[0] && IsDigit(d[0]) && text[p + 2] == ']'
    ensures RefAt(text, p) == Some(Number(d))
  {
    RunFromIs(text, p + 1, p + 2, IsDigit);
    assert text[p + 1..p + 2] == d;
  }

  /** No `[` from `p` on: no further reference. */
  lemma {:induction false} NoBracketSkip(text: string, p: nat)
    requires p <= |text| && forall k :: p <= k < |text| ==> text[k] != '['
    ensures References(text, p) == []
    decreases |text| - p
  {
    if p < |text| {
      ReferencesStep(text, p);
      NoBracketSkip(text, p + 1);
    }
  }

  /** The blocks of the example: `1. x` from 10 to 14 and `2. y` from 15 to 19. */
  lemma DriftBlocks(text: string)
    requires DriftText(text)
    ensures Blocks(text, 0) == [Block(Number("1"), "x", 10, 14), Block(Number("2"), "y", 15, 19)]
  {
    DriftLastBlocks(text);
    DriftFirstBlocks(text);
    DriftLeadingLine(text);
  }

  lemma DriftLastBlocks(text: string)
    requires DriftText(text)
    ensures Blocks(text, 15) == [Block(Number("2"), "y", 15, 19)]
  {
    NoLineStartSkip(text, 19, 20);
    DriftSecondBlock(text);
    BlockFound(text, 15, Block(Number("2"), "y", 15, 19));
  }

  lemma DriftFirstBlocks(text: string)
    requires DriftText(text)
    ensures Blocks(text, 10) == [Block(Number("1"), "x", 10, 14)] + Blocks(text, 15)
  {
    NoLineStartSkip(text, 14, 15);
    DriftFirstBlock(text);
    BlockFound(text, 10, Block(Number("1"), "x", 10, 14));
  }

  lemma DriftLeadingLine(text: string)
    requires DriftText(text)
    ensures Blocks(text, 0) == Blocks(text, 10)
  {
    DriftFirstLine(text);
    NoLineStartSkip(text, 1, 10);
    DriftNoBlockAtStart(text);
    BlockSkipped(text, 0);
  }

  /** The example's first line holds no line feed before its end at 9. */
  lemma DriftFirstLine(text: string)
    requires DriftText(text)
    ensures forall k :: 0 <= k < 9 ==> text[k] != '\n'
  {
    forall k | 0 <= k < 9
      ensures text[k] != '\n'
    {
      assert k in {0, 1, 2, 3, 4, 5, 6, 7, 8};
    }
  }

  /** No block at `p`: the search moves on by one. */
  lemma BlockSkipped(text: string, p: nat)
    requires p <= |text| && BlockAt(text, p).None?
    ensures Blocks(text, p) == Blocks(text, p + 1)
  {
  }

  /** A block at `p` is reported and the search resumes at its end. */
  lemma BlockFound(text: string, p: nat, b: Block)
    requires p <= |text| && BlockAt(text, p) == Some(b)
    ensures Blocks(text, p) == [b] + Blocks(text, b.end)
  {
  }

  /** The example's first line does not start with a marker. */
  lemma DriftNoBlockAtStart(text: string)
    requires DriftText(text)
    ensures BlockAt(text, 0).None?
  {
    RunFromIs(text, 0, 0, IsSpace);
    RunFromIs(text, 0, 0, IsDigit);
  }

  /** No line starts in `[p, q)`: no block starts there. */
  lemma {:induction false} NoLineStartSkip(text: string, p: nat, q: nat)
    requires 0 < p <= q <= |text| + 1 && forall k :: p - 1 <= k < q - 1 ==> text[k] != '\n'
    ensures Blocks(text, p) == Blocks(text, q)
    decreases q - p
  {
    if p < q {
      assert !LineStart(text, p);
      BlockSkipped(text, p);
      NoLineStartSkip(text, p + 1, q);
    }
  }

  /** The marker `d.` at `a`, for a one-digit `d`. */
  lemma DriftMarkerAt(text: string, a: nat, d: string)
    requires a + 2 <= |text| && |d| == 1 && text[a] == d[0] && IsDigit(d[0]) && text[a + 1] == '.'
    ensures MarkerAt(text, a) == Some(Number(d))
  {
    RunFromIs(text, a, a + 1, IsDigit);
    assert text[a..a + 1] == d;
  }

  /** A line `d. c` at `p`, `d` one digit and `c` one character, whose body fits. */
  lemma OneCharBlock(text: string, p: nat, d: string)
    requires p + 5 <= |text| + 1 && LineStart(text, p) && !IsSpace(text[p])
    requires |d| == 1 && text[p] == d[0] && IsDigit(d[0]) && text[p + 1] == '.' && text[p + 2] == ' '
    requires !IsSpace(text[p + 3]) && BodyFits(text, p + 3) && NextNewline(text, p + 3) == p + 4
    ensures BlockAt(text, p) == Some(Block(Number(d), [text[p + 3]], p, p + 4))
  {
    RunFromIs(text, p, p, IsSpace);
    DriftMarkerAt(text, p, d);
    BlockAtMarker(text, p, Number(d));
    OneCharBodyBlock(text, p, Number(d), p + 2);
  }

  /** After a marker ending at `b`, one space and a one-character body that fits. */
  lemma OneCharBodyBlock(text: string, p: nat, id: NoteId, b: nat)
    requires p < b && b + 2 <= |text| && WellFormed(id)
    requires IsSpace(text[b]) && !IsSpace(text[b + 1]) && BodyFits(text, b + 1) && NextNewline(text, b + 1) == b + 2
    ensures BodyBlock(text, p, id, b) == Some(Block(id, [text[b + 1]], p, b + 2))
  {
    RunFromIs(text, b, b + 1, IsSpace);
    BodyStartAtEnd(text, b, b + 1);
    assert text[b + 1..b + 2] == [text[b + 1]];
  }

  /** The content pattern at a line start `p` with no leading whitespace, once the
      marker is known. */
  lemma BlockAtMarker(text: string, p: nat, id: NoteId)
    requires p <= |text| && LineStart(text, p) && RunFrom(text, p, IsSpace) == 0
    requires MarkerAt(text, p) == Some(id)
    ensures p + MarkerLen(id) <= |text| && WellFormed(id)
    ensures BlockAt(text, p) == BodyBlock(text, p, id, p + MarkerLen(id))
  {
    BlockAtLineStart(text, p, p, id);
  }

  lemma BlockAtLineStart(text: string, p: nat, a: nat, id: NoteId)
    requires p <= |text| && LineStart(text, p) && a == p + RunFrom(text, p, IsSpace)
    requires MarkerAt(text, a) == Some(id)
    ensures BlockAt(text, p) == BodyBlock(text, p, id, a + MarkerLen(id))
  {
  }

  /** The body fits at the end of the whitespace: `\s+` gives nothing back. */
  lemma BodyStartAtEnd(text: string, b: nat, c: nat)
    requires b < c <= |text| && BodyFits(text, c)
    ensures BodyStart(text, b, c) == c
  {
  }

  /** `1. x`, ended by the line feed before the next marker. */
  lemma DriftFirstBlock(text: string)
    requires DriftText(text)
    ensures BlockAt(text, 10) == Some(Block(Number("1"), "x", 10, 14))
  {
    RunFromIs(text, 15, 15, IsSpace);
    DriftMarkerAt(text, 15, "2");
    assert MarkerAhead(text, 15);
    assert NextNewline(text, 13) == 14;
    assert BodyFits(text, 13);
    OneCharBlock(text, 10, "1");
  }

  /** `2. y`, ended by the end of the text. */
  lemma DriftSecondBlock(text: string)
    requires DriftText(text)
    ensures BlockAt(text, 15) == Some(Block(Number("2"), "y", 15, 19))
  {
    NoNewlineToEnd(text, 18);
    assert BodyFits(text, 18);
    OneCharBlock(text, 15, "2");
  }

  /** `convert_to_markdown` with each reference rewritten at its own position: working
      from the last record back already keeps the earlier positions valid. */
  function ConvertCorrected(text: string): (r: string)
    ensures text == [] || ExtractFootnotes(text) == [] ==> r == text
    ensures text != [] && ExtractFootnotes(text) != [] ==> EndsWith(r, SectionHeader + SectionLines(ExtractFootnotes(text)))
  {
    if text == [] then text
    else
      var fs := ExtractFootnotes(text);
      if fs == [] then text
      else
        var body := Strip(RemoveBlocks(ReverseSplice(text, RefEdits(fs)), 0));
        var section := SectionHeader + SectionLines(fs);
        assert (body + section)[|body|..] == section;
        body + section
  }

  /** The corrected conversion replaces every extracted reference in place: its rewrite
      is the text with each `[id]` span exchanged for `[^id]` and every gap kept. */
  lemma CorrectedRewritesInPlace(text: string, fs: seq<Footnote>)
    requires fs == ExtractFootnotes(text) && DistinctPositions(fs)
    ensures Disjoint(RefEdits(fs), 0, |text|)
    ensures ReverseSplice(text, RefEdits(fs)) == Rebuild(text, RefEdits(fs), 0)
  {
    ExtractedEditsApart(text, fs);
    ReverseSpliceIsRebuild(text, RefEdits(fs));
  }

  /** A text with at most one record converts the same both ways: with one rewrite
      there is no earlier rewrite to shift. */
  lemma ConvertAgreesOnOneRecord(text: string)
    requires |ExtractFootnotes(text)| <= 1
    ensures Convert(text) == ConvertCorrected(text)
  {
    var fs := ExtractFootnotes(text);
    if text != [] && |fs| == 1 {
      RefEditsOne(fs);
      var e := RefEdit(fs[0]);
      ReverseFoldOne(text, 0, e);
      assert [e][..0] == [];
      assert ReverseSplice(text, [e]) == ReverseSplice(Apply(text, 0, e), []);
    }
  }
}
