/** `merge_footnotes` of `src/processor/footnote_processor.py`: the first content seen
    for each id across all texts, the converted texts joined by blank lines, and one
    footnote section listing the ids in ascending string order. */
module FootnoteMerge {
  import opened Strings
  import opened Optional
  import opened Footnotes

  /** One item of the merged dict: an id as written, and its content. */
  datatype Entry = Entry(key: string, content: string)

  /** The dict lookup. */
  function Lookup(d: seq<Entry>, key: string): Option<string> {
    if d == [] then None
    else if d[0].key == key then Some(d[0].content)
    else Lookup(d[1..], key)
  }

  /** The content of the first record whose id is written `key`. */
  function FirstContent(fs: seq<Footnote>, key: string): Option<string> {
    if fs == [] then None
    else if IdText(fs[0].id) == key then Some(fs[0].content)
    else FirstContent(fs[1..], key)
  }

  /** The first pass: a record is added only when its id is not in the dict yet. */
  function AddFirst(d: seq<Entry>, fs: seq<Footnote>): (r: seq<Entry>)
    ensures |d| <= |r|
    decreases |fs|
  {
    if fs == [] then d
    else
      var key := IdText(fs[0].id);
      AddFirst(if Lookup(d, key).Some? then d else d + [Entry(key, fs[0].content)], fs[1..])
  }

  lemma {:induction false} LookupSnoc(d: seq<Entry>, e: Entry, key: string)
    ensures Lookup(d + [e], key) ==
      if Lookup(d, key).Some? then Lookup(d, key) else if e.key == key then Some(e.content) else None
  {
    if d == [] {
      assert [e][1..] == [];
    } else {
      assert (d + [e])[1..] == d[1..] + [e];
      LookupSnoc(d[1..], e, key);
    }
  }

  /** The first content wins: after the pass, an id maps to what it mapped to
      before, and otherwise to the content of its first record. */
  lemma {:induction false} AddFirstLookup(d: seq<Entry>, fs: seq<Footnote>, key: string)
    ensures Lookup(AddFirst(d, fs), key) == if Lookup(d, key).Some? then Lookup(d, key) else FirstContent(fs, key)
    decreases |fs|
  {
    if fs != [] {
      var k := IdText(fs[0].id);
      var d' := if Lookup(d, k).Some? then d else d + [Entry(k, fs[0].content)];
      if Lookup(d, k).None? {
        LookupSnoc(d, Entry(k, fs[0].content), key);
      }
      AddFirstLookup(d', fs[1..], key);
    }
  }

  /** No id appears twice. */
  predicate UniqueKeys(d: seq<Entry>) {
    forall i, j :: 0 <= i < j < |d| ==> d[i].key != d[j].key
  }

  lemma {:induction false} LookupNone(d: seq<Entry>, key: string)
    requires Lookup(d, key).None?
    ensures forall i :: 0 <= i < |d| ==> d[i].key != key
  {
    if d != [] {
      LookupNone(d[1..], key);
      assert forall i :: 1 <= i < |d| ==> d[i] == d[1..][i - 1];
    }
  }

  lemma {:induction false} AddFirstUnique(d: seq<Entry>, fs: seq<Footnote>)
    requires UniqueKeys(d)
    ensures UniqueKeys(AddFirst(d, fs))
    decreases |fs|
  {
    if fs != [] {
      var k := IdText(fs[0].id);
      if Lookup(d, k).None? {
        LookupNone(d, k);
        var d' := d + [Entry(k, fs[0].content)];
        assert UniqueKeys(d');
        AddFirstUnique(d', fs[1..]);
      } else {
        AddFirstUnique(d, fs[1..]);
      }
    }
  }

  lemma {:induction false} AddFirstEmpty(fs: seq<Footnote>)
    ensures AddFirst([], fs) == [] <==> fs == []
  {
    if fs != [] {
      var e := Entry(IdText(fs[0].id), fs[0].content);
      assert Lookup([], e.key).None?;
      assert AddFirst([], fs) == AddFirst([] + [e], fs[1..]);
    }
  }

  /** With unique ids, an item is in the dict exactly when the lookup of its id gives
      its content. */
  lemma {:induction false} LookupUnique(d: seq<Entry>, e: Entry)
    requires UniqueKeys(d)
    ensures e in d <==> Lookup(d, e.key) == Some(e.content)
  {
    if d != [] {
      assert UniqueKeys(d[1..]);
      LookupUnique(d[1..], e);
      if d[0].key == e.key {
        forall i | 0 <= i < |d[1..]|
          ensures d[1..][i] != e
        {
          assert d[1..][i] == d[i + 1];
        }
      }
    }
  }

  // ---------------------------------------------------------------------------
  // `sorted(all_footnotes.items())`

  function InsertEntry(x: Entry, s: seq<Entry>): (r: seq<Entry>)
    ensures multiset(r) == multiset(s) + multiset{x}
  {
    if s == [] then [x]
    else
      assert s == [s[0]] + s[1..];
      if LexLess(s[0].key, x.key) then [s[0]] + InsertEntry(x, s[1..])
      else [x] + s
  }

  /** Insertion sort by id. The ids are unique, so the contents are never compared. */
  function SortEntries(d: seq<Entry>): (r: seq<Entry>)
    ensures multiset(r) == multiset(d)
  {
    if d == [] then []
    else
      assert d == [d[0]] + d[1..];
      InsertEntry(d[0], SortEntries(d[1..]))
  }

  predicate Ascending(s: seq<Entry>) {
    forall i, j :: 0 <= i < j < |s| ==> LexLess(s[i].key, s[j].key)
  }

  lemma {:induction false} InsertAscending(x: Entry, s: seq<Entry>)
    requires Ascending(s)
    requires forall k :: 0 <= k < |s| ==> s[k].key != x.key
    ensures Ascending(InsertEntry(x, s))
  {
    if s != [] {
      if LexLess(s[0].key, x.key) {
        InsertAscending(x, s[1..]);
        var r := InsertEntry(x, s[1..]);
        forall j | 0 <= j < |r|
          ensures LexLess(s[0].key, r[j].key)
        {
          assert r[j] in multiset(r);
          if r[j] != x {
            assert r[j] in s[1..];
          }
        }
      } else {
        LexTotal(s[0].key, x.key);
        forall j | 1 <= j < |s|
          ensures LexLess(x.key, s[j].key)
        {
          LexTransitive(x.key, s[0].key, s[j].key);
        }
      }
    }
  }

  lemma {:induction false} SortAscending(d: seq<Entry>)
    requires UniqueKeys(d)
    ensures Ascending(SortEntries(d))
  {
    if d != [] {
      assert UniqueKeys(d[1..]);
      SortAscending(d[1..]);
      var t := SortEntries(d[1..]);
      forall k | 0 <= k < |t|
        ensures t[k].key != d[0].key
      {
        assert t[k] in multiset(d[1..]);
        var i :| 0 <= i < |d[1..]| && d[1..][i] == t[k];
        assert d[i + 1] == t[k];
      }
      InsertAscending(d[0], t);
    }
  }

  // ---------------------------------------------------------------------------
  // The merge

  /** The records of every text, text by text. */
  function AllRecords(texts: seq<string>): seq<Footnote> {
    if texts == [] then [] else ExtractFootnotes(texts[0]) + AllRecords(texts[1..])
  }

  /** The second pass: every text converted on its own by `convert_to_markdown` as
      written. */
  function ConvertAll(texts: seq<string>): (r: seq<string>)
    ensures |r| == |texts|
  {
    if texts == [] then [] else [Convert(texts[0])] + ConvertAll(texts[1..])
  }

  /** The second pass with the corrected conversion, each reference rewritten at its
      own position. */
  function ConvertAllCorrected(texts: seq<string>): (r: seq<string>)
    ensures |r| == |texts|
  {
    if texts == [] then [] else [ConvertCorrected(texts[0])] + ConvertAllCorrected(texts[1..])
  }

  /** `[^id]: content` for a merged item. */
  function MergedLine(e: Entry): string { "[^" + e.key + "]: " + e.content }

  /** The merged lines, each after a line feed, in list order. */
  function MergedLines(s: seq<Entry>): string {
    if s == [] then "" else "\n" + MergedLine(s[0]) + MergedLines(s[1..])
  }

  /** The dict `merge_footnotes` builds. */
  function MergedDict(texts: seq<string>): seq<Entry> {
    AddFirst([], AllRecords(texts))
  }

  /** The converted texts joined by blank lines, then the merged section when the
      dict is not empty. */
  function Assemble(converted: seq<string>, texts: seq<string>): string {
    var body := Join(converted, "\n\n");
    var d := MergedDict(texts);
    if d == [] then body else body + (SectionHeader + MergedLines(SortEntries(d)))
  }

  /** `merge_footnotes`, with the as-written conversion of each text. */
  function MergeFootnotes(texts: seq<string>): (r: string)
    ensures AllRecords(texts) == [] ==> r == Join(texts, "\n\n")
    ensures AllRecords(texts) != [] ==>
      EndsWith(r, SectionHeader + MergedLines(SortEntries(MergedDict(texts))))
  {
    MergeShape(ConvertAll(texts), texts);
    NoRecordsMerge(texts);
    Assemble(ConvertAll(texts), texts)
  }

  /** `merge_footnotes` with the corrected conversion of each text. */
  function MergeFootnotesCorrected(texts: seq<string>): (r: string)
    ensures AllRecords(texts) == [] ==> r == Join(texts, "\n\n")
    ensures AllRecords(texts) != [] ==>
      EndsWith(r, SectionHeader + MergedLines(SortEntries(MergedDict(texts))))
  {
    MergeShape(ConvertAllCorrected(texts), texts);
    NoRecordsMerge(texts);
    Assemble(ConvertAllCorrected(texts), texts)
  }

  /** No records in all the texts means none in the first text and none in the rest. */
  lemma NoRecordsSplit(texts: seq<string>)
    requires texts != [] && AllRecords(texts) == []
    ensures ExtractFootnotes(texts[0]) == [] && AllRecords(texts[1..]) == []
  {
    assert AllRecords(texts) == ExtractFootnotes(texts[0]) + AllRecords(texts[1..]);
  }

  /** A first text without records, in front of texts the conversions keep, is kept. */
  lemma ConvertAllKeepsFirst(texts: seq<string>)
    requires texts != [] && ExtractFootnotes(texts[0]) == []
    requires ConvertAll(texts[1..]) == texts[1..] && ConvertAllCorrected(texts[1..]) == texts[1..]
    ensures ConvertAll(texts) == texts && ConvertAllCorrected(texts) == texts
  {
    assert Convert(texts[0]) == texts[0] && ConvertCorrected(texts[0]) == texts[0];
    assert texts == [texts[0]] + texts[1..];
  }

  lemma {:induction false} NoRecordsNoChange(texts: seq<string>)
    requires AllRecords(texts) == []
    ensures ConvertAll(texts) == texts && ConvertAllCorrected(texts) == texts
  {
    if texts != [] {
      NoRecordsSplit(texts);
      NoRecordsNoChange(texts[1..]);
      ConvertAllKeepsFirst(texts);
    }
  }

  /** Without records the dict is empty and the assembly is the plain join; with
      records it ends with the merged section. */
  lemma MergeShape(c: seq<string>, texts: seq<string>)
    ensures AllRecords(texts) == [] ==> Assemble(c, texts) == Join(c, "\n\n")
    ensures AllRecords(texts) != [] ==>
      EndsWith(Assemble(c, texts), SectionHeader + MergedLines(SortEntries(MergedDict(texts))))
  {
    AddFirstEmpty(AllRecords(texts));
    AssembleCases(c, texts, MergedDict(texts));
  }

  lemma AssembleCases(c: seq<string>, texts: seq<string>, d: seq<Entry>)
    requires d == MergedDict(texts)
    ensures d == [] ==> Assemble(c, texts) == Join(c, "\n\n")
    ensures d != [] ==> EndsWith(Assemble(c, texts), SectionHeader + MergedLines(SortEntries(d)))
  {
    if d != [] {
      EndsWithAppended(Join(c, "\n\n"), SectionHeader + MergedLines(SortEntries(d)));
    }
  }

  lemma EndsWithAppended(b: string, sec: string)
    ensures EndsWith(b + sec, sec)
  {
    assert (b + sec)[|b|..] == sec;
  }

  lemma NoRecordsMerge(texts: seq<string>)
    ensures AllRecords(texts) == [] ==> ConvertAll(texts) == texts && ConvertAllCorrected(texts) == texts
  {
    if AllRecords(texts) == [] {
      NoRecordsNoChange(texts);
    }
  }

  /** At most one record per text: both conversions, and so both merges, agree. */
  lemma {:induction false} MergesAgree(texts: seq<string>)
    requires forall i :: 0 <= i < |texts| ==> |ExtractFootnotes(texts[i])| <= 1
    ensures ConvertAll(texts) == ConvertAllCorrected(texts)
    ensures MergeFootnotes(texts) == MergeFootnotesCorrected(texts)
  {
    if texts != [] {
      ConvertAgreesOnOneRecord(texts[0]);
      assert forall i :: 0 <= i < |texts[1..]| ==> texts[1..][i] == texts[i + 1];
      MergesAgree(texts[1..]);
    }
  }

  /** The merged section lists each id once, in ascending string order, with the
      content of the first record carrying it across all texts; and it is present
      exactly when some text has a footnote. */
  lemma MergedSection(texts: seq<string>, e: Entry)
    ensures MergedDict(texts) == [] <==> AllRecords(texts) == []
    ensures Ascending(SortEntries(MergedDict(texts)))
    ensures e in SortEntries(MergedDict(texts)) <==> FirstContent(AllRecords(texts), e.key) == Some(e.content)
  {
    var fs := AllRecords(texts);
    var d := AddFirst([], fs);
    AddFirstEmpty(fs);
    AddFirstUnique([], fs);
    SortAscending(d);
    assert e in SortEntries(d) <==> e in multiset(d);
    LookupUnique(d, e);
    AddFirstLookup([], fs, e.key);
  }
}
