/** The page bookkeeping of `extract_page_content` and `convert` in `src/converter.py`.
    A page keeps its non-blank spans; the size and bold flag of each kept span are
    keyed by the length of the page text built before it, and each image record is
    placed at that length. `convert` shifts every page's keys and image positions by
    a running offset and joins the page texts with blank lines. The PDF library is an
    input: a page is its blocks and the outcome of fetching its first image. */
module Converter {
  import opened Strings
  import opened Optional

  /** A text span: its `text`, `size` and `flags`. */
  datatype Span = Span(text: string, size: real, flags: nat)

  /** A block of type 0 with its lines of spans, a block of type 1, or any other. */
  datatype Block = TextBlock(lines: seq<seq<Span>>) | ImageBlock | OtherBlock

  /** A page: its blocks, and the base64 data of the page's first image, or `None`
      when fetching or encoding that image raises. */
  datatype Page = Page(blocks: seq<Block>, firstImage: Option<string>)

  /** An image record: its `data` and its `position`. */
  datatype PageImage = PageImage(data: string, position: int)

  /** A `font_info` value: the span's size and whether it is bold. */
  datatype Font = Font(size: real, bold: bool)

  /** One item of `font_info`: a position and its font. */
  datatype FontEntry = FontEntry(key: int, font: Font)

  /** A dict from positions to fonts, as its assignments in order: assigning a key
      again adds an item, and the lookup takes the last item with that key. */
  type FontInfo = seq<FontEntry>

  /** `fi.get(x)`. */
  function Lookup(fi: FontInfo, x: int): Option<Font> {
    if fi == [] then None
    else if fi[|fi| - 1].key == x then Some(fi[|fi| - 1].font)
    else Lookup(fi[..|fi| - 1], x)
  }

  /** What `extract_page_content` returns, and what `convert` builds from all pages. */
  datatype PageContent = PageContent(text: string, images: seq<PageImage>, fontInfo: FontInfo)

  /** `flags & 2 != 0`. */
  function Bold(flags: nat): (b: bool)
    ensures b <==> flags % 4 >= 2
  {
    (flags / 2) % 2 == 1
  }

  /** `(span["size"], span["flags"] & 2 != 0)`. */
  function FontOf(s: Span): Font {
    Font(s.size, Bold(s.flags))
  }

  // ---------------------------------------------------------------------------
  // Lookups

  /** A key no item carries is not found. */
  lemma {:induction false} LookupAbsent(fi: FontInfo, x: int)
    requires forall i :: 0 <= i < |fi| ==> fi[i].key != x
    ensures Lookup(fi, x) == None
  {
    if fi != [] {
      LookupAbsent(fi[..|fi| - 1], x);
    }
  }

  /** A key that is found is carried by some item, with the font found. */
  lemma {:induction false} LookupFound(fi: FontInfo, x: int)
    requires Lookup(fi, x).Some?
    ensures exists i :: 0 <= i < |fi| && fi[i] == FontEntry(x, Lookup(fi, x).value)
  {
    if fi[|fi| - 1].key != x {
      LookupFound(fi[..|fi| - 1], x);
      var i :| 0 <= i < |fi| - 1 && fi[..|fi| - 1][i] == FontEntry(x, Lookup(fi, x).value);
      assert fi[i] == fi[..|fi| - 1][i];
    }
  }

  /** With keys in strictly increasing order every item is found by its key. */
  lemma {:induction false} LookupIncreasing(fi: FontInfo, j: nat)
    requires j < |fi|
    requires forall i, i' :: 0 <= i < i' < |fi| ==> fi[i].key < fi[i'].key
    ensures Lookup(fi, fi[j].key) == Some(fi[j].font)
  {
    if j < |fi| - 1 {
      var init := fi[..|fi| - 1];
      assert init[j] == fi[j];
      LookupIncreasing(init, j);
    }
  }

  /** `a.update(b)`, seen through the lookup: what `b` has wins. */
  lemma {:induction false} LookupAppend(a: FontInfo, b: FontInfo, x: int)
    ensures Lookup(a + b, x) == if Lookup(b, x).Some? then Lookup(b, x) else Lookup(a, x)
  {
    if b != [] {
      var b' := b[..|b| - 1];
      assert (a + b)[..|a + b| - 1] == a + b';
      LookupAppend(a, b', x);
    } else {
      assert a + b == a;
    }
  }

  // ---------------------------------------------------------------------------
  // One page

  /** What the nested loops over a page visit: a span, or an image block that is
      looked at because an image processor is set. */
  datatype Item = SpanItem(span: Span) | ImageItem

  function LineItems(spans: seq<Span>): (r: seq<Item>)
    ensures |r| == |spans|
    ensures forall i :: 0 <= i < |spans| ==> r[i] == SpanItem(spans[i])
  {
    seq(|spans|, i requires 0 <= i < |spans| => SpanItem(spans[i]))
  }

  /** The spans of a text block, line by line. */
  function BlockItems(lines: seq<seq<Span>>): (r: seq<Item>)
    ensures ImageItem !in r
  {
    if lines == [] then [] else LineItems(lines[0]) + BlockItems(lines[1..])
  }

  /** The items of the blocks in order; image blocks count only with an image
      processor, and blocks of any other type are skipped. */
  function PageItems(blocks: seq<Block>, hasProcessor: bool): (r: seq<Item>)
    ensures !hasProcessor ==> ImageItem !in r
  {
    if blocks == [] then []
    else
      var here := match blocks[0]
        case TextBlock(lines) => BlockItems(lines)
        case ImageBlock => if hasProcessor then [ImageItem] else []
        case OtherBlock => [];
      here + PageItems(blocks[1..], hasProcessor)
  }

  /** The texts of the spans. */
  function Texts(spans: seq<Span>): (ts: seq<string>)
    ensures |ts| == |spans|
    ensures forall i :: 0 <= i < |spans| ==> ts[i] == spans[i].text
  {
    seq(|spans|, i requires 0 <= i < |spans| => spans[i].text)
  }

  /** `len('\n'.join(text_blocks))`. */
  function JoinedLength(kept: seq<Span>): nat {
    |Join(Texts(kept), "\n")|
  }

  /** The three accumulators: the kept spans (whose texts are `text_blocks`),
      `images` and `font_info`. */
  datatype Scan = Scan(kept: seq<Span>, images: seq<PageImage>, fontInfo: FontInfo)

  /** One visited item: a span whose text strips to nothing is skipped; any other is
      keyed at the current joined length and kept; an image block adds a record at
      the current joined length unless fetching the image raised. */
  function Step(st: Scan, it: Item, image: Option<string>): Scan {
    match it
    case SpanItem(s) =>
      if AllSpace(s.text) then st
      else Scan(st.kept + [s], st.images, st.fontInfo + [FontEntry(JoinedLength(st.kept), FontOf(s))])
    case ImageItem =>
      if image.None? then st
      else Scan(st.kept, st.images + [PageImage(image.value, JoinedLength(st.kept))], st.fontInfo)
  }

  /** The accumulators after the first `n` items. */
  function ScanUpTo(items: seq<Item>, image: Option<string>, n: nat): Scan
    requires n <= |items|
  {
    if n == 0 then Scan([], [], [])
    else Step(ScanUpTo(items, image, n - 1), items[n - 1], image)
  }

  /** `extract_page_content`. */
  function ExtractPageContent(page: Page, hasProcessor: bool): PageContent {
    var items := PageItems(page.blocks, hasProcessor);
    var st := ScanUpTo(items, page.firstImage, |items|);
    PageContent(Join(Texts(st.kept), "\n"), st.images, st.fontInfo)
  }

  /** The spans among the items whose text is not all whitespace, in order. */
  function NonBlankSpans(items: seq<Item>): seq<Span> {
    if items == [] then []
    else
      (if items[0].SpanItem? && !AllSpace(items[0].span.text) then [items[0].span] else []) +
      NonBlankSpans(items[1..])
  }

  lemma {:induction false} NonBlankSpansSnoc(items: seq<Item>, x: Item)
    ensures NonBlankSpans(items + [x]) ==
      NonBlankSpans(items) + if x.SpanItem? && !AllSpace(x.span.text) then [x.span] else []
  {
    if items != [] {
      assert (items + [x])[1..] == items[1..] + [x];
      NonBlankSpansSnoc(items[1..], x);
    }
  }

  /** The `font_info` key of kept span `j`: the length of the join of the spans
      kept before it. */
  function Key(kept: seq<Span>, j: nat): nat
    requires j <= |kept|
  {
    JoinedLength(kept[..j])
  }

  /** Where kept span `j` sits in the page text: at its key when it is the first,
      otherwise one past its key, which holds the line feed that precedes it. */
  lemma SpanPlacement(kept: seq<Span>, j: nat)
    requires j < |kept|
    ensures var w, k, t := Join(Texts(kept), "\n"), Key(kept, j), kept[j].text;
      (j == 0 ==> k == 0 && |t| <= |w| && w[..|t|] == t) &&
      (j > 0 ==> k + 1 + |t| <= |w| && w[k] == '\n' && w[k + 1..k + 1 + |t|] == t)
  {
    var ts := Texts(kept);
    assert Texts(kept[..j]) == ts[..j];
    JoinPartAt(ts, "\n", j);
    if j > 0 {
      var k := Key(kept, j);
      var w := Join(ts, "\n");
      assert w[k] == w[k..k + 1][0];
    }
  }

  /** Keys stay inside the page text when no kept span is empty. */
  lemma KeyBelow(kept: seq<Span>, j: nat)
    requires j < |kept| && kept[j].text != []
    ensures Key(kept, j) < JoinedLength(kept)
  {
    SpanPlacement(kept, j);
  }

  /** Keys of kept spans strictly increase. */
  lemma KeysIncrease(kept: seq<Span>, i: nat, j: nat)
    requires i < j <= |kept| && kept[i].text != []
    ensures Key(kept, i) < Key(kept, j)
  {
    assert kept[..j][..i] == kept[..i];
    KeyBelow(kept[..j], i);
  }

  /** Image positions in order. */
  predicate Ordered(imgs: seq<PageImage>) {
    forall i, i' :: 0 <= i < i' < |imgs| ==> imgs[i].position <= imgs[i'].position
  }

  /** What holds of the accumulators at every step: the kept spans are not blank,
      the font items are one per kept span, at its key and with its font, and the image
      records carry the first image's data at ordered positions inside the text. */
  predicate ScanGood(st: Scan, image: Option<string>) {
    (forall j :: 0 <= j < |st.kept| ==> !AllSpace(st.kept[j].text)) &&
    |st.fontInfo| == |st.kept| &&
    (forall j :: 0 <= j < |st.kept| ==> st.fontInfo[j] == FontEntry(Key(st.kept, j), FontOf(st.kept[j]))) &&
    (forall i :: 0 <= i < |st.images| ==>
      image == Some(st.images[i].data) && 0 <= st.images[i].position <= JoinedLength(st.kept)) &&
    Ordered(st.images)
  }

  lemma KeepStep(st: Scan, s: Span, image: Option<string>)
    requires ScanGood(st, image) && !AllSpace(s.text)
    ensures ScanGood(Step(st, SpanItem(s), image), image)
  {
    var kept' := st.kept + [s];
    assert kept'[..|st.kept|] == st.kept;
    forall j | 0 <= j < |st.kept|
      ensures Key(kept', j) == Key(st.kept, j)
    {
      assert kept'[..j] == st.kept[..j];
    }
    KeyBelow(kept', |st.kept|);
  }

  lemma StepGood(st: Scan, it: Item, image: Option<string>)
    requires ScanGood(st, image)
    ensures ScanGood(Step(st, it, image), image)
  {
    if it.SpanItem? && !AllSpace(it.span.text) {
      KeepStep(st, it.span, image);
    }
  }

  lemma PrefixSnoc<T>(s: seq<T>, n: nat)
    requires 0 < n <= |s|
    ensures s[..n] == s[..n - 1] + [s[n - 1]]
  {
  }

  /** The scan keeps exactly the non-blank spans and keeps its invariant. */
  lemma {:induction false} ScanUpToGood(items: seq<Item>, image: Option<string>, n: nat)
    requires n <= |items|
    ensures ScanGood(ScanUpTo(items, image, n), image)
    ensures ScanUpTo(items, image, n).kept == NonBlankSpans(items[..n])
  {
    if n > 0 {
      ScanUpToGood(items, image, n - 1);
      StepGood(ScanUpTo(items, image, n - 1), items[n - 1], image);
      PrefixSnoc(items, n);
      NonBlankSpansSnoc(items[..n - 1], items[n - 1]);
    }
  }

  /** The scan makes one image record per visited image block when the first image
      can be fetched, and none otherwise. */
  lemma {:induction false} ScanUpToImages(items: seq<Item>, image: Option<string>, n: nat)
    requires n <= |items|
    ensures |ScanUpTo(items, image, n).images| == if image.None? then 0 else multiset(items[..n])[ImageItem]
  {
    if n > 0 {
      ScanUpToImages(items, image, n - 1);
      PrefixSnoc(items, n);
    }
  }

  /** A page text with its keys and image positions inside it and its images in
      order. */
  predicate WellPlaced(c: PageContent) {
    KeysInside(c) && ImagesInside(c)
  }

  /** Every font key falls inside the text. */
  predicate KeysInside(c: PageContent) {
    forall i :: 0 <= i < |c.fontInfo| ==> 0 <= c.fontInfo[i].key < |c.text|
  }

  /** The image records are in order and inside the text, or at its end. */
  predicate ImagesInside(c: PageContent) {
    (forall i :: 0 <= i < |c.images| ==> 0 <= c.images[i].position <= |c.text|) && Ordered(c.images)
  }

  /** What a good scan means for its font items: each kept span's font is found at
      its key, the keys strictly increase, and they all fall inside the joined text. */
  lemma GoodScanFonts(st: Scan, image: Option<string>)
    requires ScanGood(st, image)
    ensures forall j :: 0 <= j < |st.kept| ==> Lookup(st.fontInfo, Key(st.kept, j)) == Some(FontOf(st.kept[j]))
    ensures forall i, j :: 0 <= i < j < |st.kept| ==> Key(st.kept, i) < Key(st.kept, j)
    ensures forall i :: 0 <= i < |st.fontInfo| ==> 0 <= st.fontInfo[i].key < JoinedLength(st.kept)
  {
    var kept := st.kept;
    forall i, j | 0 <= i < j < |kept|
      ensures Key(kept, i) < Key(kept, j)
    {
      KeysIncrease(kept, i, j);
    }
    forall j | 0 <= j < |kept|
      ensures Lookup(st.fontInfo, Key(kept, j)) == Some(FontOf(kept[j]))
    {
      LookupIncreasing(st.fontInfo, j);
    }
    forall j | 0 <= j < |kept|
      ensures Key(kept, j) < JoinedLength(kept)
    {
      KeyBelow(kept, j);
    }
  }

  /** The scan of a whole page. */
  lemma PageScan(page: Page, hasProcessor: bool)
    ensures var items := PageItems(page.blocks, hasProcessor);
      var st := ScanUpTo(items, page.firstImage, |items|);
      ScanGood(st, page.firstImage) && st.kept == NonBlankSpans(items) &&
      ExtractPageContent(page, hasProcessor) == PageContent(Join(Texts(st.kept), "\n"), st.images, st.fontInfo) &&
      |st.images| == if page.firstImage.None? then 0 else multiset(items)[ImageItem]
  {
    var items := PageItems(page.blocks, hasProcessor);
    ScanUpToGood(items, page.firstImage, |items|);
    ScanUpToImages(items, page.firstImage, |items|);
    assert items[..|items|] == items;
  }

  /** `extract_page_content`, its text and fonts: the text is the non-blank spans
      joined by line feeds; the font items are one per kept span, at its key and with
      its size and bold flag, each found by its key; the keys strictly increase and
      fall inside the text. */
  lemma PageFonts(page: Page, hasProcessor: bool)
    ensures var c, kept := ExtractPageContent(page, hasProcessor), NonBlankSpans(PageItems(page.blocks, hasProcessor));
      c.text == Join(Texts(kept), "\n") && KeysInside(c) && |c.fontInfo| == |kept| &&
      (forall j :: 0 <= j < |kept| ==>
        c.fontInfo[j].key == Key(kept, j) && Lookup(c.fontInfo, Key(kept, j)) == Some(FontOf(kept[j]))) &&
      (forall i, j :: 0 <= i < j < |kept| ==> Key(kept, i) < Key(kept, j))
  {
    var items := PageItems(page.blocks, hasProcessor);
    PageScan(page, hasProcessor);
    GoodScanFonts(ScanUpTo(items, page.firstImage, |items|), page.firstImage);
  }

  /** `extract_page_content`, its images: the records carry the page's first image,
      in order, inside the text, one per image block visited; there are none without
      an image processor or when the image cannot be fetched. */
  lemma PageImages(page: Page, hasProcessor: bool)
    ensures var c, items := ExtractPageContent(page, hasProcessor), PageItems(page.blocks, hasProcessor);
      ImagesInside(c) &&
      (forall i :: 0 <= i < |c.images| ==> page.firstImage == Some(c.images[i].data)) &&
      |c.images| == (if page.firstImage.None? then 0 else multiset(items)[ImageItem]) &&
      (!hasProcessor ==> c.images == [])
  {
    PageScan(page, hasProcessor);
  }

  // ---------------------------------------------------------------------------
  // All pages

  /** The accumulators of the page loop of `convert`: `all_text`, `all_images`,
      `all_font_info` and `current_position`. */
  datatype Combined = Combined(texts: seq<string>, images: seq<PageImage>, fontInfo: FontInfo, position: int)

  /** `{k + d: v for k, v in fi.items()}`. */
  function ShiftKeys(fi: FontInfo, d: int): (r: FontInfo)
    ensures |r| == |fi|
    ensures forall i :: 0 <= i < |fi| ==> r[i] == FontEntry(fi[i].key + d, fi[i].font)
  {
    seq(|fi|, i requires 0 <= i < |fi| => FontEntry(fi[i].key + d, fi[i].font))
  }

  /** Moving the keys moves the lookup. */
  lemma {:induction false} LookupShift(fi: FontInfo, d: int, x: int)
    ensures Lookup(ShiftKeys(fi, d), x) == Lookup(fi, x - d)
  {
    if fi != [] {
      var init := fi[..|fi| - 1];
      assert ShiftKeys(fi, d)[..|fi| - 1] == ShiftKeys(init, d);
      LookupShift(init, d, x);
    }
  }

  /** Every image record moved by `d`. */
  function ShiftImages(imgs: seq<PageImage>, d: int): (r: seq<PageImage>)
    ensures |r| == |imgs|
    ensures forall i :: 0 <= i < |imgs| ==> r[i] == PageImage(imgs[i].data, imgs[i].position + d)
  {
    seq(|imgs|, i requires 0 <= i < |imgs| => PageImage(imgs[i].data, imgs[i].position + d))
  }

  /** One page of the loop: its font items moved by the current offset and merged
      in, the later page winning on a clashing key; its image records moved likewise
      and appended; its text appended; and the offset advanced by its length plus
      `gap`. */
  function Advance(c: Combined, p: PageContent, gap: int): Combined {
    Combined(c.texts + [p.text], c.images + ShiftImages(p.images, c.position),
             c.fontInfo + ShiftKeys(p.fontInfo, c.position), c.position + |p.text| + gap)
  }

  /** The loop over the first `n` pages. */
  function FoldPages(pages: seq<PageContent>, n: nat, gap: int): Combined
    requires n <= |pages|
  {
    if n == 0 then Combined([], [], [], 0)
    else Advance(FoldPages(pages, n - 1, gap), pages[n - 1], gap)
  }

  /** The texts of the pages. */
  function PageTexts(pages: seq<PageContent>): (ts: seq<string>)
    ensures |ts| == |pages|
  {
    seq(|pages|, i requires 0 <= i < |pages| => pages[i].text)
  }

  /** The lengths of the first `k` pages plus `gap` for each of them. */
  function Offset(pages: seq<PageContent>, k: nat, gap: int): int
    requires k <= |pages|
  {
    SumLengths(PageTexts(pages)[..k]) + gap * k
  }

  lemma OffsetStep(pages: seq<PageContent>, k: nat, gap: int)
    requires k < |pages|
    ensures Offset(pages, k + 1, gap) == Offset(pages, k, gap) + |pages[k].text| + gap
  {
    var ts := PageTexts(pages);
    PrefixSnoc(ts, k + 1);
    SumLengthsSnoc(ts[..k], ts[k]);
    assert gap * (k + 1) == gap * k + gap;
  }

  /** Offsets never decrease when `gap` is not negative. */
  lemma {:induction false} OffsetGrows(pages: seq<PageContent>, i: nat, j: nat, gap: int)
    requires i <= j <= |pages| && gap >= 0
    ensures Offset(pages, i, gap) <= Offset(pages, j, gap)
    decreases j
  {
    if i < j {
      OffsetGrows(pages, i, j - 1, gap);
      OffsetStep(pages, j - 1, gap);
    }
  }

  /** After `n` pages the texts are those of the pages and `current_position` is
      the sum of their lengths plus `gap` per page. */
  lemma {:induction false} FoldTexts(pages: seq<PageContent>, n: nat, gap: int)
    requires n <= |pages|
    ensures FoldPages(pages, n, gap).texts == PageTexts(pages)[..n]
    ensures FoldPages(pages, n, gap).position == Offset(pages, n, gap)
  {
    if n > 0 {
      FoldTexts(pages, n - 1, gap);
      OffsetStep(pages, n - 1, gap);
      PrefixSnoc(PageTexts(pages), n);
    }
  }

  /** The combined text, images and font items, the offset advancing by a page's
      length plus one, as written. */
  function ConvertPages(pages: seq<PageContent>): PageContent {
    var c := FoldPages(pages, |pages|, 1);
    PageContent(Join(c.texts, "\n\n"), c.images, c.fontInfo)
  }

  /** The same with the offset advancing by a page's length plus two, the length of
      the blank-line separator. */
  function ConvertPagesCorrected(pages: seq<PageContent>): PageContent {
    var c := FoldPages(pages, |pages|, 2);
    PageContent(Join(c.texts, "\n\n"), c.images, c.fontInfo)
  }

  /** Every page extracted, in order. */
  function PageContents(doc: seq<Page>, hasProcessor: bool): (r: seq<PageContent>)
    ensures |r| == |doc|
  {
    if doc == [] then []
    else PageContents(doc[..|doc| - 1], hasProcessor) + [ExtractPageContent(doc[|doc| - 1], hasProcessor)]
  }

  lemma {:induction false} PageContentsAt(doc: seq<Page>, hasProcessor: bool, k: nat)
    requires k < |doc|
    ensures PageContents(doc, hasProcessor)[k] == ExtractPageContent(doc[k], hasProcessor)
  {
    if k < |doc| - 1 {
      PageContentsAt(doc[..|doc| - 1], hasProcessor, k);
    }
  }

  /** `convert` up to `combined_text`, as written. */
  function ConvertDocumentAsWritten(doc: seq<Page>, hasProcessor: bool): PageContent {
    ConvertPages(PageContents(doc, hasProcessor))
  }

  /** `convert` up to `combined_text`, with the offset that matches the separator. */
  function ConvertDocument(doc: seq<Page>, hasProcessor: bool): PageContent {
    ConvertPagesCorrected(PageContents(doc, hasProcessor))
  }

  /** Page `k` starts in the blank-line join after the lengths of the pages before it
      plus two characters for each of them. */
  lemma PageStart(texts: seq<string>, k: nat)
    requires k < |texts|
    ensures var w, s := Join(texts, "\n\n"), SumLengths(texts[..k]) + 2 * k;
      s + |texts[k]| <= |w| && w[s..s + |texts[k]|] == texts[k]
  {
    JoinPartAt(texts, "\n\n", k);
    if k > 0 {
      JoinLength(texts[..k], "\n\n");
    }
  }

  /** After all pages the texts are those of the pages. */
  lemma FoldAllTexts(pages: seq<PageContent>, gap: int)
    ensures FoldPages(pages, |pages|, gap).texts == PageTexts(pages)
  {
    FoldTexts(pages, |pages|, gap);
    assert PageTexts(pages)[..|pages|] == PageTexts(pages);
  }

  /** With the corrected offset, page `k`'s text sits in the combined text exactly at
      its offset. */
  lemma CorrectedOffsets(pages: seq<PageContent>, k: nat)
    requires k < |pages|
    ensures var w, d, t := ConvertPagesCorrected(pages).text, Offset(pages, k, 2), pages[k].text;
      0 <= d && d + |t| <= |w| && w[d..d + |t|] == t
  {
    FoldAllTexts(pages, 2);
    PageStart(PageTexts(pages), k);
  }

  /** As written, page `k`'s offset falls `k` characters short of where its text sits
      in the combined text. */
  lemma AsWrittenOffsets(pages: seq<PageContent>, k: nat)
    requires k < |pages|
    ensures var w, d, t := ConvertPages(pages).text, Offset(pages, k, 1), pages[k].text;
      0 <= d + k && d + k + |t| <= |w| && w[d + k..d + k + |t|] == t
  {
    FoldAllTexts(pages, 1);
    PageStart(PageTexts(pages), k);
  }

  /** Two pages, the first one character long, the second with one font item at its
      start: that item ends up `1 + gap` along, and nothing from the second page is
      keyed elsewhere. */
  lemma TwoPagesFold(pages: seq<PageContent>, gap: int, g: Font)
    requires |pages| == 2 && |pages[0].text| == 1 && pages[1].fontInfo == [FontEntry(0, g)]
    ensures var fi := FoldPages(pages, 2, gap).fontInfo;
      FoldPages(pages, 2, gap).texts == [pages[0].text, pages[1].text] &&
      Lookup(fi, 1 + gap) == Some(g) &&
      forall x :: x != 1 + gap ==> Lookup(fi, x) == Lookup(pages[0].fontInfo, x)
  {
    var c1 := FoldPages(pages, 1, gap);
    FoldTexts(pages, 1, gap);
    FoldTexts(pages, 2, gap);
    OffsetStep(pages, 0, gap);
    assert c1.fontInfo == [] + ShiftKeys(pages[0].fontInfo, 0);
    assert ShiftKeys(pages[0].fontInfo, 0) == pages[0].fontInfo;
    var s := ShiftKeys(pages[1].fontInfo, 1 + gap);
    assert s == [FontEntry(1 + gap, g)];
    forall x
      ensures Lookup(c1.fontInfo + s, x) == if x == 1 + gap then Some(g) else Lookup(pages[0].fontInfo, x)
    {
      LookupAppend(c1.fontInfo, s, x);
      assert s[..|s| - 1] == [];
      assert Lookup(s, x) == if x == 1 + gap then Some(g) else None;
      assert c1.fontInfo == pages[0].fontInfo;
    }
    assert FoldPages(pages, 2, gap).fontInfo == c1.fontInfo + s;
  }

  /** Two one-character pages, each with a font item for its span: as written, the
      second item lands on a line feed of the combined text, one short of its span,
      and nothing is keyed at the span; the corrected offset puts it on the span. */
  lemma TwoPagesDrift(f: Font, g: Font)
    ensures var pages := [PageContent("a", [], [FontEntry(0, f)]), PageContent("b", [], [FontEntry(0, g)])];
      var w, v := ConvertPages(pages), ConvertPagesCorrected(pages);
      w.text == v.text == "a\n\nb" && w.text[2] == '\n' && w.text[3] == 'b' &&
      Lookup(w.fontInfo, 2) == Some(g) && Lookup(w.fontInfo, 3) == None &&
      Lookup(v.fontInfo, 3) == Some(g)
  {
    var pages := [PageContent("a", [], [FontEntry(0, f)]), PageContent("b", [], [FontEntry(0, g)])];
    TwoPagesFold(pages, 1, g);
    TwoPagesFold(pages, 2, g);
    assert Join(["a", "b"], "\n\n") == "a\n\nb";
    assert Lookup([FontEntry(0, f)], 3) == None;
  }

  /** The font info after `n` pages, each page's items moved by its offset. */
  function FoldFonts(pages: seq<PageContent>, n: nat, gap: int): FontInfo
    requires n <= |pages|
  {
    if n == 0 then [] else FoldFonts(pages, n - 1, gap) + ShiftKeys(pages[n - 1].fontInfo, Offset(pages, n - 1, gap))
  }

  lemma {:induction false} FoldFontsIs(pages: seq<PageContent>, n: nat, gap: int)
    requires n <= |pages|
    ensures FoldPages(pages, n, gap).fontInfo == FoldFonts(pages, n, gap)
  {
    if n > 0 {
      FoldFontsIs(pages, n - 1, gap);
      FoldTexts(pages, n - 1, gap);
    }
  }

  /** Earlier items survive a page whose moved keys all lie at or past `d`. */
  lemma KeptThroughPage(prev: FontInfo, q: FontInfo, d: int, y: int)
    requires y < d && forall i :: 0 <= i < |q| ==> 0 <= q[i].key
    ensures Lookup(prev + ShiftKeys(q, d), y) == Lookup(prev, y)
  {
    LookupAppend(prev, ShiftKeys(q, d), y);
    LookupShift(q, d, y);
    LookupAbsent(q, y - d);
  }

  /** The moved items of the last page are found at their moved keys. */
  lemma FoundInPage(prev: FontInfo, q: FontInfo, d: int, x: int)
    requires Lookup(q, x).Some?
    ensures Lookup(prev + ShiftKeys(q, d), x + d) == Lookup(q, x)
  {
    LookupAppend(prev, ShiftKeys(q, d), x + d);
    LookupShift(q, d, x + d);
  }

  /** A key found in `fi` lies inside the page text when the page keeps its keys
      inside. */
  lemma FoundInside(c: PageContent, x: int)
    requires KeysInside(c) && Lookup(c.fontInfo, x).Some?
    ensures 0 <= x < |c.text|
  {
    LookupFound(c.fontInfo, x);
  }

  /** Page `k`'s items survive every later page when the pages keep their keys inside
      their texts. */
  lemma {:induction false} FoldFontKept(pages: seq<PageContent>, n: nat, gap: int, k: nat, x: int)
    requires k < n <= |pages| && gap >= 0
    requires forall i :: 0 <= i < |pages| ==> KeysInside(pages[i])
    requires Lookup(pages[k].fontInfo, x).Some?
    ensures Lookup(FoldFonts(pages, n, gap), x + Offset(pages, k, gap)) == Lookup(pages[k].fontInfo, x)
    decreases n
  {
    var prev, p := FoldFonts(pages, n - 1, gap), pages[n - 1];
    if k < n - 1 {
      FoldFontKept(pages, n - 1, gap, k, x);
      FoundInside(pages[k], x);
      OffsetStep(pages, k, gap);
      OffsetGrows(pages, k + 1, n - 1, gap);
      assert KeysInside(p);
      KeptThroughPage(prev, p.fontInfo, Offset(pages, n - 1, gap), x + Offset(pages, k, gap));
    } else {
      FoundInPage(prev, p.fontInfo, Offset(pages, k, gap), x);
    }
  }

  /** Every item found in the combined font info comes from some page's item. */
  lemma {:induction false} FoldFontFrom(pages: seq<PageContent>, n: nat, gap: int, y: int)
    requires n <= |pages| && Lookup(FoldFonts(pages, n, gap), y).Some?
    ensures exists k :: 0 <= k < n && Lookup(pages[k].fontInfo, y - Offset(pages, k, gap)) == Lookup(FoldFonts(pages, n, gap), y)
  {
    var prev, p, d := FoldFonts(pages, n - 1, gap), pages[n - 1], Offset(pages, n - 1, gap);
    LookupAppend(prev, ShiftKeys(p.fontInfo, d), y);
    LookupShift(p.fontInfo, d, y);
    if Lookup(p.fontInfo, y - d).None? {
      FoldFontFrom(pages, n - 1, gap, y);
    }
  }

  /** For well-placed pages and a gap that is not negative, the combined font info
      finds every page's items moved by that page's offset, pages never clashing, and
      finds nothing else. */
  lemma FoldFontInfo(pages: seq<PageContent>, n: nat, gap: int)
    requires n <= |pages| && gap >= 0
    requires forall k :: 0 <= k < |pages| ==> KeysInside(pages[k])
    ensures var fi := FoldPages(pages, n, gap).fontInfo;
      (forall k, x :: 0 <= k < n && Lookup(pages[k].fontInfo, x).Some? ==>
        Lookup(fi, x + Offset(pages, k, gap)) == Lookup(pages[k].fontInfo, x)) &&
      (forall y :: Lookup(fi, y).Some? ==>
        exists k :: 0 <= k < n && Lookup(pages[k].fontInfo, y - Offset(pages, k, gap)) == Lookup(fi, y))
  {
    var fi := FoldPages(pages, n, gap).fontInfo;
    FoldFontsIs(pages, n, gap);
    forall k, x | 0 <= k < n && Lookup(pages[k].fontInfo, x).Some?
      ensures Lookup(fi, x + Offset(pages, k, gap)) == Lookup(pages[k].fontInfo, x)
    {
      FoldFontKept(pages, n, gap, k, x);
    }
    forall y | Lookup(fi, y).Some?
      ensures exists k :: 0 <= k < n && Lookup(pages[k].fontInfo, y - Offset(pages, k, gap)) == Lookup(fi, y)
    {
      FoldFontFrom(pages, n, gap, y);
    }
  }

  /** Two ordered runs of image records, the first ending at or before `m` and the
      second starting at or after it, are ordered together. */
  lemma AppendOrdered(a: seq<PageImage>, b: seq<PageImage>, m: int)
    requires Ordered(a) && Ordered(b)
    requires forall i :: 0 <= i < |a| ==> a[i].position <= m
    requires forall i :: 0 <= i < |b| ==> m <= b[i].position
    ensures Ordered(a + b)
  {
    var all := a + b;
    forall i, i' | 0 <= i < i' < |all|
      ensures all[i].position <= all[i'].position
    {
      if i' >= |a| {
        assert all[i'] == b[i' - |a|];
        if i >= |a| {
          assert all[i] == b[i - |a|];
        }
      }
    }
  }

  /** A page's image records moved by `d` stay ordered and lie between `d` and the
      end of the moved text. */
  lemma ShiftedInside(p: PageContent, d: int)
    requires ImagesInside(p)
    ensures var s := ShiftImages(p.images, d);
      Ordered(s) && forall i :: 0 <= i < |s| ==> d <= s[i].position <= d + |p.text|
  {
  }

  /** Appending a page's image records, moved to a non-negative position `m`, to
      ordered records lying between 0 and `m` keeps them ordered and between 0 and
      the end of the moved text. */
  lemma AppendPageImages(a: seq<PageImage>, p: PageContent, m: int)
    requires Ordered(a) && ImagesInside(p) && 0 <= m
    requires forall i :: 0 <= i < |a| ==> 0 <= a[i].position <= m
    ensures var all := a + ShiftImages(p.images, m);
      Ordered(all) && forall i :: 0 <= i < |all| ==> 0 <= all[i].position <= m + |p.text|
  {
    var s := ShiftImages(p.images, m);
    ShiftedInside(p, m);
    AppendOrdered(a, s, m);
    var all := a + s;
    forall i | 0 <= i < |all|
      ensures 0 <= all[i].position <= m + |p.text|
    {
      if i >= |a| {
        assert all[i] == s[i - |a|];
      }
    }
  }

  /** For pages whose image records are ordered and inside their texts and a gap that
      is not negative, the combined image records are in order, none before the
      start and none past the last page's text. */
  lemma {:induction false} FoldImages(pages: seq<PageContent>, n: nat, gap: int)
    requires n <= |pages| && gap >= 0
    requires forall k :: 0 <= k < |pages| ==> ImagesInside(pages[k])
    ensures var c := FoldPages(pages, n, gap);
      Ordered(c.images) &&
      forall i :: 0 <= i < |c.images| ==> 0 <= c.images[i].position <= c.position - gap
  {
    if n > 0 {
      FoldImages(pages, n - 1, gap);
      var c, p := FoldPages(pages, n - 1, gap), pages[n - 1];
      FoldTexts(pages, n - 1, gap);
      OffsetGrows(pages, 0, n - 1, gap);
      assert ImagesInside(p);
      AppendPageImages(c.images, p, c.position);
      assert FoldPages(pages, n, gap) == Advance(c, p, gap);
    }
  }

  /** Extracted pages keep their font keys inside their texts. */
  lemma AllKeysInside(doc: seq<Page>, hasProcessor: bool)
    ensures forall k :: 0 <= k < |doc| ==> KeysInside(PageContents(doc, hasProcessor)[k])
  {
    forall k | 0 <= k < |doc|
      ensures KeysInside(PageContents(doc, hasProcessor)[k])
    {
      PageContentsAt(doc, hasProcessor, k);
      PageFonts(doc[k], hasProcessor);
    }
  }

  /** Kept span `j` of a page: its font is found at its key. */
  lemma PageFontAt(page: Page, hasProcessor: bool, j: nat)
    requires j < |NonBlankSpans(PageItems(page.blocks, hasProcessor))|
    ensures var kept, c := NonBlankSpans(PageItems(page.blocks, hasProcessor)), ExtractPageContent(page, hasProcessor);
      Lookup(c.fontInfo, Key(kept, j)) == Some(FontOf(kept[j])) && c.text == Join(Texts(kept), "\n")
  {
    PageFonts(page, hasProcessor);
  }

  /** With the corrected offset, every font key of a page, moved by the page's
      offset, finds the same font in the combined font info and points at the same
      character of the combined text as it did in the page text. */
  lemma CorrectedKeysAligned(pages: seq<PageContent>, k: nat, x: int)
    requires k < |pages|
    requires forall i :: 0 <= i < |pages| ==> KeysInside(pages[i])
    requires Lookup(pages[k].fontInfo, x).Some?
    ensures var r, y := ConvertPagesCorrected(pages), x + Offset(pages, k, 2);
      Lookup(r.fontInfo, y) == Lookup(pages[k].fontInfo, x) &&
      0 <= x < |pages[k].text| && 0 <= y < |r.text| && r.text[y] == pages[k].text[x]
  {
    FoldFontsIs(pages, |pages|, 2);
    FoldFontKept(pages, |pages|, 2, k, x);
    FoundInside(pages[k], x);
    CorrectedOffsets(pages, k);
    var w, d, t := ConvertPagesCorrected(pages).text, Offset(pages, k, 2), pages[k].text;
    assert w[d + x] == w[d..d + |t|][x];
  }

  /** As written, the same key finds the same font, but the character it pointed at
      in page `k` now sits `k` further on in the combined text. */
  lemma AsWrittenKeysShifted(pages: seq<PageContent>, k: nat, x: int)
    requires k < |pages|
    requires forall i :: 0 <= i < |pages| ==> KeysInside(pages[i])
    requires Lookup(pages[k].fontInfo, x).Some?
    ensures var r, y := ConvertPages(pages), x + Offset(pages, k, 1);
      Lookup(r.fontInfo, y) == Lookup(pages[k].fontInfo, x) &&
      0 <= x < |pages[k].text| && 0 <= y + k < |r.text| && r.text[y + k] == pages[k].text[x]
  {
    FoldFontsIs(pages, |pages|, 1);
    FoldFontKept(pages, |pages|, 1, k, x);
    FoundInside(pages[k], x);
    AsWrittenOffsets(pages, k);
    var w, d, t := ConvertPages(pages).text, Offset(pages, k, 1), pages[k].text;
    assert w[d + k + x] == w[d + k..d + k + |t|][x];
  }

  /** A slice of a slice. */
  lemma SliceOfSlice(w: string, d: nat, t: string, a: nat, b: nat)
    requires d + |t| <= |w| && w[d..d + |t|] == t && a <= b <= |t|
    ensures w[d + a..d + b] == t[a..b]
  {
    forall i | 0 <= i < b - a
      ensures w[d + a..d + b][i] == t[a..b][i]
    {
      assert t[a + i] == w[d..d + |t|][a + i];
    }
  }

  /** A page text that joins the given spans, found at `d` in a longer text: span
      `j` sits at `d` plus its key when it is the first, and one further on, after a
      line feed, otherwise. */
  lemma SpanInCombined(w: string, d: nat, kept: seq<Span>, j: nat)
    requires j < |kept|
    requires var p := Join(Texts(kept), "\n"); d + |p| <= |w| && w[d..d + |p|] == p
    ensures var t, y := kept[j].text, Key(kept, j) + d;
      (j == 0 ==> y + |t| <= |w| && w[y..y + |t|] == t) &&
      (j > 0 ==> y + 1 + |t| <= |w| && w[y] == '\n' && w[y + 1..y + 1 + |t|] == t)
  {
    var p, x, t := Join(Texts(kept), "\n"), Key(kept, j), kept[j].text;
    SpanPlacement(kept, j);
    if j == 0 {
      SliceOfSlice(w, d, p, 0, |t|);
    } else {
      SliceOfSlice(w, d, p, x + 1, x + 1 + |t|);
      assert w[d + x] == w[d..d + |p|][x];
    }
  }

  /** With the corrected offset, a page that joins its kept spans has span `j` at
      the span's key moved by the page's offset in the combined text (after the line
      feed that the key points at, for all but the first span). */
  lemma CorrectedSpanPlaced(pages: seq<PageContent>, k: nat, kept: seq<Span>, j: nat)
    requires k < |pages| && j < |kept|
    requires pages[k].text == Join(Texts(kept), "\n")
    ensures var w, t := ConvertPagesCorrected(pages).text, kept[j].text;
      var y := Key(kept, j) + Offset(pages, k, 2);
      (j == 0 ==> 0 <= y && y + |t| <= |w| && w[y..y + |t|] == t) &&
      (j > 0 ==> 0 <= y && y + 1 + |t| <= |w| && w[y] == '\n' && w[y + 1..y + 1 + |t|] == t)
  {
    CorrectedOffsets(pages, k);
    SpanInCombined(ConvertPagesCorrected(pages).text, Offset(pages, k, 2), kept, j);
  }
}
