# pdf2md text pipeline, modelled in Dafny

This project models the text-restructuring core of pdf2md. That core is the pure Python code that turns the text extracted from PDF pages into Markdown. It has seven parts, and each is one Dafny module:

- `Converter` (`converter.dfy`) models how `src/converter.py` extracts and concatenates pages.
  - A page keeps its non-blank spans.
  - Each kept span's size and bold flag are keyed by the length of the page text built before it.
  - Each image record is placed at that length.
  - `convert` shifts every page's keys and image positions by a running offset and joins the page texts with blank lines.
- `Headings` (`headings.dfy`), `HeadingShapes` (`heading_shapes.dfy`) and `HeadingMarkdown` (`heading_markdown.dfy`) model the heading resolver of `src/processor/heading_processor.py`.
  - Level detection from font thresholds and from the shape of the text.
  - The dense re-levelling.
  - Extraction by line.
  - The ATX rewrite.
  - The table of contents with slug anchors.
- `Latex` (`latex.dfy`) and `Splices` (`splices.dfy`) model the equation rewriter of `src/processor/latex_processor.py`.
  - The three lazy patterns, scanned the way `re.finditer` scans.
  - The stable sort by start.
  - The clean-up of an equation body.
  - The left-to-right splice with its running offset.
- `Footnotes` (`footnotes.dfy`) and `FootnoteMerge` (`footnote_merge.dfy`) model the footnote resolver of `src/processor/footnote_processor.py`.
  - Matching references to content blocks.
  - The back-to-front rewrite, as written.
  - Removing the content blocks and appending the section.
  - The merge across texts, where the first definition wins. The merge converts each text with the as-written conversion, as the code does; a merge with the corrected conversion sits alongside it.
- `ImageAssembler` (`images.dfy`) models `MarkdownAssembler.assemble` of `src/processor/markdown_assembler.py`.
  - The table-of-contents prefix.
  - The image filter.
  - The stable sort by position.
  - The position splice.
- `ElementAssembler` (`elements.dfy`) models `pdf2md-core/src/processor/markdown_assembler.py`.
  - `assemble_document`.
  - The `(y, priority)` sort.
  - The per-type renderers.
  - The list stack.
- `ResponseParser` (`response.dfy`) models `_parse_response` of `pdf2md-core/src/processor/gemini_integration.py`.
- `LineCleanup` (`lines.dfy`) holds the line clean-up that `_parse_response` and `assemble_document` share.

Three shared modules support the rest:

- `Strings` (`strings.dfy`) models Python's `strip`, `split`, `join`, slicing and integer formatting on ASCII.
- `Sorting` (`sorting.dfy`) is Python's stable `sorted` with an integer key.
- `Optional` is an option type.

The modelling choices are:

- Regular expressions are modelled as scanners for the specific patterns used. Each scanner tries a match at every position and resumes after a match, as `re.finditer` does.
- Python dicts are sequences of items: the merged font info, the footnote dict and the heading positions.
- Python's `sorted` is an insertion sort, and stability is proved about it.
- The PDF library is an input. A page is its blocks plus the outcome of fetching its first image.

Three behaviours of the code shape the footnote and image parts of the model:

- `extract_footnotes` pairs every content block with every reference that carries its id (`src/processor/footnote_processor.py` lines 41-63).
- The section that `convert_to_markdown` appends to a single text has one line per record, last record first, the order in which the back-to-front loop appends them (lines 78-92 of the same file).
- `assemble` places each image where Python's slicing puts its `position` value (`src/processor/markdown_assembler.py` lines 35, 48 and 54). For the non-negative positions the converter produces, that is the position clamped to the text. A negative position counts from the end of the text, as Python slicing does, and `Strings.PySlice` models that too.

## Model

| member | source | states |
|---|---|---|
| Converter.Bold | src/converter.py:39 | `flags & 2 != 0` holds exactly when `flags % 4 >= 2` |
| Converter.PageItems | src/converter.py:32-41 | without an image processor no image block is visited |
| Converter.ScanUpToGood | src/converter.py:32-40 | the loop keeps exactly the spans whose text is not all whitespace, in order. The font items are one per kept span, keyed by the length of the join of the spans kept before it. Image records carry the first image's data at ordered positions inside the text |
| Converter.ScanUpToImages | src/converter.py:41-57 | one image record per visited image block when the first image can be fetched, and none when fetching raises |
| Converter.SpanPlacement | src/converter.py:37-59 | in the page text, the first kept span starts at its key (0). Any later span starts one past its key, and the key holds the line feed before the span |
| Converter.KeysIncrease | src/converter.py:38 | the keys of kept spans strictly increase |
| Converter.ExtractPageContent | src/converter.py:25-59 | `extract_page_content`: the page text, its image records and its font info. Its contract is stated by `PageFonts`, `PageImages`, `ScanUpToGood` and `SpanPlacement` |
| Converter.PageFonts | src/converter.py:25-59 | the page text is the non-blank spans joined by line feeds. There is one font item per kept span, at its key, with its size and bold flag, and the lookup finds it there. Keys strictly increase and lie inside the text |
| Converter.PageImages | src/converter.py:41-57 | image records carry the page's first image and are ordered and inside the text. There is one per visited image block, none when the image cannot be fetched, and none without an image processor |
| Converter.LookupAppend | src/converter.py:79 | after `a.update(b)` a key found in `b` gives `b`'s value, and otherwise `a`'s |
| Converter.LookupShift | src/converter.py:76-78 | moving every key by `d` moves the lookup by `d` |
| Converter.LookupIncreasing | src/converter.py:38-39 | with strictly increasing keys every item is found by its key |
| Converter.FoldTexts | src/converter.py:71-87 | after `n` pages, `all_text` is the page texts in order. `current_position` is the sum of their lengths plus `gap` per page, with `gap` 1 as written |
| Converter.OffsetGrows | src/converter.py:87 | offsets never decrease |
| Converter.FoldFontInfo | src/converter.py:75-79 | for pages whose keys lie inside their texts, the combined font info finds each page's items at keys moved by that page's offset. No later page overwrites them, and every item found comes from some page |
| Converter.FoldImages | src/converter.py:81-84 | the combined image records, each moved by its page's offset, stay ordered by position and lie between 0 and the end of the last page |
| Converter.CorrectedOffsets | src/converter.py:87-90 | with an advance of length plus two, page `k`'s text sits in the blank-line join exactly at its offset |
| Converter.AsWrittenOffsets | src/converter.py:87-90 | with the advance of length plus one, page `k`'s text sits `k` characters after its offset |
| Converter.CorrectedKeysAligned | src/converter.py:76-90 | corrected: a page key moved by the offset finds the same font in the combined font info. It points at the same character of the combined text as it did in the page text |
| Converter.AsWrittenKeysShifted | src/converter.py:76-90 | as written: the moved key finds the same font, but its character now sits `k` further on |
| Converter.CorrectedSpanPlaced | src/converter.py:37-90 | corrected: span `j` of page `k` sits at its key plus the page's offset in the combined text, after the line feed for all but the first span |
| Converter.ConvertDocumentAsWritten | src/converter.py:61-90 | `convert` up to `combined_text`, with the advance of one per page as written. Its contract is stated by `FoldTexts`, `FoldFontInfo`, `FoldImages`, `AsWrittenOffsets` and `AsWrittenKeysShifted` |
| Converter.ConvertDocument | src/converter.py:61-90 | the same with an advance of two per page, matching the `"\n\n"` join. Its contract is stated by `CorrectedOffsets`, `CorrectedKeysAligned` and `CorrectedSpanPlaced` |
| Converter.TwoPagesDrift | src/converter.py:87-90 | on pages `"a"` and `"b"` the as-written key of `b` lands on a line feed and nothing is keyed at `b`. The corrected key lands on `b` |
| Headings.FontLevel | src/processor/heading_processor.py:33-42 | the font level is in 0..4, and 4 only for bold text |
| Headings.ShapeLevel | src/processor/heading_processor.py:45-61 | a text of heading shape gets a level from 1 to 6 |
| Headings.NumberedLevel | src/processor/heading_processor.py:46-50 | without a font level, a dotted number `d`, whitespace and a one-line text of heading length is level `min(k, 6)`, where `k` counts the digit runs of `d` |
| Headings.AtxLevel | src/processor/heading_processor.py:51-53 | without a font level, `k` hashes (1 to 6), a space and a one-line text of heading length is level `k` |
| Headings.TitleCapsLevel | src/processor/heading_processor.py:54-61 | without a font level, a title with a colon is level 2, an all-caps text of at most four words is level 2, and a longer all-caps text that is not a title is level 3 |
| Headings.DetectHeadingLevel | src/processor/heading_processor.py:24-63 | the level is in 0..6. It is positive exactly when the length is within 3..200 and either a font threshold applies or one of the five patterns matches |
| Headings.FontTakesPrecedence | src/processor/heading_processor.py:33-45 | sizes 20, 16 and 14, and 12 when bold, give levels 1, 2, 3 and 4 whatever the shape. Below the thresholds the font is ignored |
| Headings.DetectFontExample | tests/test_processor.py:143-147 | `"Test Heading"` at size 20, bold, is level 1 |
| Headings.DetectMarkdownExample | tests/test_processor.py:150 | `"# Heading"` is level 1 |
| Headings.DetectNumberedExample | tests/test_processor.py:151 | `"1.2.3 Heading"` is level 3 |
| Headings.DetectCapsExample | tests/test_processor.py:152 | `"ALL CAPS HEADING"` is level 2 |
| HeadingShapes.NumberedIsSectionNumber | src/processor/heading_processor.py:19-31 | every text of the `(\d+\.)+\s+.+` shape also has the section-number shape |
| HeadingShapes.FirstWord | src/processor/heading_processor.py:49 | `text.split()[0]` is a non-empty run without whitespace, and it is the leading run when the text starts with a non-space |
| HeadingShapes.WordCountSpaceJoin | src/processor/heading_processor.py:58 | the word count of two texts joined by one space is the sum of their counts |
| Headings.SortedLevels | src/processor/heading_processor.py:71-76 | the sorted keys of `level_map` are strictly increasing and are exactly the levels present |
| Headings.NewLevel | src/processor/heading_processor.py:79-81 | a new level is between 1 and the number of distinct levels, capped at 6 |
| Headings.Normalize | src/processor/heading_processor.py:65-87 | count, order, text and position are kept. Only the level changes, to a value from 1 to the number of distinct levels capped at 6 |
| Headings.NormalizeOrder | src/processor/heading_processor.py:71-85 | re-levelling keeps the order of levels, and keeps it strictly when there are at most six distinct levels |
| Headings.NormalizeLevelSet | src/processor/heading_processor.py:71-85 | the levels afterwards are exactly `1..k`, where `k` is the number of distinct input levels capped at 6 |
| Headings.NormalizeIdempotent | src/processor/heading_processor.py:65-87 | normalising twice is normalising once |
| Headings.BlankLineLevel | src/processor/heading_processor.py:95-97 | a blank line is never a heading |
| Headings.KeepHeadings | src/processor/heading_processor.py:94-120 | the loop keeps the candidates of positive level in line order, and all of them |
| Headings.ExtractHeadings | src/processor/heading_processor.py:89-122 | headings are in line order. Each is the stripped text of its line with a level from 1 to 6, and a line is a heading position exactly when its detected level is positive |
| HeadingMarkdown.DropClosingColon | src/processor/heading_processor.py:145 | `re.sub(r':$', '', u)` drops one colon at the end or just before a final line feed, and nothing else |
| HeadingMarkdown.CleanHeadingText | src/processor/heading_processor.py:144-145 | the cleaned text is what follows the `[\d\.#\s]` prefix, less a closing colon. It starts with no prefix character |
| HeadingMarkdown.KeepSlugChars | src/processor/heading_processor.py:168 | only `[\w\-]` characters are kept, in order, and a text of such characters is unchanged |
| HeadingMarkdown.Slug | src/processor/heading_processor.py:167-168 | an anchor holds only word characters and `-`, none upper case, and is no longer than its text |
| HeadingMarkdown.SlugIsByChar | src/processor/heading_processor.py:167-168 | the three passes equal a character-by-character translation |
| HeadingMarkdown.SlugAppend | src/processor/heading_processor.py:167-168 | the slug of a concatenation is the concatenation of the slugs |
| HeadingMarkdown.SlugIdempotent | src/processor/heading_processor.py:167-168 | an anchor is its own anchor |
| HeadingMarkdown.HeadingAt | src/processor/heading_processor.py:137-142 | a line has a heading exactly when its index is a heading position, and that heading sits there |
| HeadingMarkdown.HeadingsToMarkdown | src/processor/heading_processor.py:124-131 | empty text, or text without headings, is returned unchanged |
| HeadingMarkdown.HeadingsToMarkdownLines | src/processor/heading_processor.py:133-151 | the line count is kept. A line without a heading is unchanged, and a heading line becomes `#` repeated to its level, a space and the cleaned text |
| HeadingMarkdown.TableOfContents | src/processor/heading_processor.py:153-158 | the table is empty exactly when there are no headings, and otherwise it starts with the title |
| HeadingMarkdown.TocEntryShape | src/processor/heading_processor.py:160-170 | an entry is `2*(level-1)` spaces and then the link from the cleaned text to the anchor. It stays on one line when the heading does |
| HeadingMarkdown.TocLines | src/processor/heading_processor.py:155-172 | read line by line, the table is the title, a blank line and one entry per heading, in order |
| HeadingMarkdown.RenderedLevelReadBack | src/processor/heading_processor.py:143-147 | the ATX line written for a heading of level 1 to 6 reads back, by the level detection without font information, as that level |
| HeadingMarkdown.TocEntryExample | src/processor/heading_processor.py:164-170 | `"1.2 Results:"` shows `Results` and links to `results` |
| Latex.FindClose | src/processor/latex_processor.py:7-9 | the lazy body ends at the first closing delimiter. Without DOTALL it never crosses a line feed |
| Latex.FindAll | src/processor/latex_processor.py:25-43 | matches have the pattern's kind, lie inside the text with `start < end`, and do not overlap |
| Latex.FindAllMatches | src/processor/latex_processor.py:25-49 | every reported equation is the pattern's match at its start |
| Latex.ExtractEquations | src/processor/latex_processor.py:20-51 | the equations are all the matches of the three scans, sorted by start and inside the text |
| Latex.ExtractEquationsStable | src/processor/latex_processor.py:51 | equations with the same start keep the order the scans found them in |
| Latex.DetectLatex | src/processor/latex_processor.py:11-18 | `detect_latex`: one of the three patterns is found. Its contract is stated by `DetectLatexIff`, `LoneDollarExample`, `LoneBeginExample` and `ShortWithoutDollar` |
| Latex.DetectLatexIff | src/processor/latex_processor.py:11-18 | detection holds exactly when an opening delimiter of one of the three patterns has a closing one after it |
| Latex.LoneDollarExample | tests/test_processor.py:116 | a lone `$` is not detected |
| Latex.LoneBeginExample | tests/test_processor.py:117 | a lone `\begin{equation}` is not detected |
| Latex.ShortWithoutDollar | src/processor/latex_processor.py:11-18 | a text without `$` that is shorter than an empty align environment is not detected |
| Latex.Collapse | src/processor/latex_processor.py:56 | `re.sub(r'\s+', ' ', s)` leaves no two adjacent whitespace characters, and it keeps emptiness and whitespace at either end |
| Latex.CollapseKeepsWords | src/processor/latex_processor.py:56 | collapsing keeps the words of the text |
| Latex.CollapseIdempotent | src/processor/latex_processor.py:56 | collapsing twice is collapsing once |
| Latex.CleanEquation | src/processor/latex_processor.py:53-71 | without a backslash, cleaning is whitespace collapse after strip |
| Latex.RenderUnwrap | src/processor/latex_processor.py:85-93 | the cleaned body can be read back from its rendering, so distinct bodies render distinctly |
| Latex.FrameExample | src/processor/latex_processor.py:85-93 | inline is framed by `$` and `$`, block by `\n$$\n` on both sides, and align additionally in an `aligned` environment |
| Latex.ConvertToMarkdown | src/processor/latex_processor.py:73-103 | without detection the text is returned unchanged. Otherwise it is the accumulator loop over the rendered equations, and when the spans are apart it is the one-pass rebuild |
| Latex.Splice | src/processor/latex_processor.py:80-101 | the loop ends with the accumulated length changes as its offset. For spans in order and apart, the result is the gaps and replacements in order, and its length is the text's plus the offset |
| Latex.EditsApart | src/processor/latex_processor.py:78-101 | equations in order and apart give edits in order and apart |
| Latex.OnlyBlocksDisjoint | src/processor/latex_processor.py:25-51 | when only block equations are found, the spans are apart, so the conversion is the one-pass rebuild |
| Splices.DisjointIsPairwise | src/processor/latex_processor.py:96-101 | the one-step non-overlap condition is the same as the all-pairs one |
| Splices.RebuildLength | src/processor/latex_processor.py:101 | the rebuild is longer than the text by exactly the sum of the length changes |
| Splices.FoldIsRebuild | src/processor/latex_processor.py:78-103 | for spans in order and apart, the offset-accumulator loop equals the one-pass rebuild from gaps and replacements |
| Splices.ApplyFromLast | src/processor/footnote_processor.py:81-89 | the back-to-front loop applies each edit shifted by the offset accumulated so far |
| Splices.SpliceOne | src/processor/footnote_processor.py:84-88 | a single edit run through that loop replaces exactly its span |
| Splices.ReverseSpliceIsRebuild | src/processor/footnote_processor.py:81-89 | applying edits from the back without a shift gives the one-pass rebuild for any number of edits in order and apart |
| Footnotes.IdTextInjective | src/processor/footnote_processor.py:15-34 | two well-formed ids are equal exactly when their texts are |
| Footnotes.RefAtIff | src/processor/footnote_processor.py:15 | the scanner finds `[id]` at `p` exactly when it is written there with a digit run or `*` |
| Footnotes.References | src/processor/footnote_processor.py:34-35 | references are matches of the pattern, in order and without overlap |
| Footnotes.Blocks | src/processor/footnote_processor.py:38-48 | the content-pattern `finditer` from `p`: every block lies inside the text at or after `p`. `BlockAt` and `ExtractFootnotesIff` state what each block is |
| Footnotes.BlockAt | src/processor/footnote_processor.py:16-53 | a content block starts at its match position, ends inside the text, has a well-formed id and a one-line body |
| Footnotes.BodyStart | src/processor/footnote_processor.py:16 | `\s+` gives back characters until the lazy body fits, and no later start fits |
| Footnotes.RemoveBlocks | src/processor/footnote_processor.py:95 | the content-pattern `re.sub` with `''` from `p`: the result is no longer than the text from `p`. `RemoveNothing` states that a text with no block is kept |
| Footnotes.RemoveNothing | src/processor/footnote_processor.py:95 | a text with no content block is left as it is by the substitution |
| Footnotes.RecordsIff | src/processor/footnote_processor.py:41-63 | a record is exactly a content block paired with a reference carrying the same id. A reference without content and content without references give nothing |
| Footnotes.ExtractFootnotes | src/processor/footnote_processor.py:29-65 | the records are sorted by reference position and are exactly the unsorted pairings |
| Footnotes.ExtractFootnotesIff | src/processor/footnote_processor.py:29-65 | an extracted record pairs a block found in the text with a reference of the same id, and every such pairing is extracted |
| Footnotes.RefOfRecord | src/processor/footnote_processor.py:34-62 | every record's position holds a written reference with its id, inside the text |
| Footnotes.RefEdit | src/processor/footnote_processor.py:83-89 | the rewrite of a record replaces `[id]` at its position and grows the text by exactly one character |
| Footnotes.Convert | src/processor/footnote_processor.py:67-98 | empty text, or text without records, is unchanged. Otherwise the result ends with the section header and one line per record |
| Footnotes.ConvertToMarkdown | src/processor/footnote_processor.py:67-98 | the loop with its offset computes the as-written conversion |
| Footnotes.RewriteReferences | src/processor/footnote_processor.py:76-92 | the loop rewrites from the last record to the first with the accumulated offset, and gathers the section lines in that order |
| Footnotes.SectionReadBack | src/processor/footnote_processor.py:78-92 | read back, the section is two empty lines, the rule, an empty line, and one `[^id]: content` line per record, last record first |
| Footnotes.ExtractedSectionReadBack | src/processor/footnote_processor.py:72-92 | the section of a converted text reads back as one line per extracted record |
| Footnotes.ExtractedEditsApart | src/processor/footnote_processor.py:65-89 | with distinct positions the rewrites are disjoint spans, in order |
| Footnotes.SingleRecordExact | src/processor/footnote_processor.py:81-89 | with one record the rewrite is exact: `[id]` becomes `[^id]` and nothing else moves |
| Footnotes.TwoReferencesDrift | src/processor/footnote_processor.py:29-89 | on the full text `"a[1]b[2]c\n1. x\n2. y"` extraction finds `[1]` at 1 with `x` and `[2]` at 5 with `y`; from those records the as-written loop makes the first line `"a[[^1][^2]c"`, where the intended one is `"a[^1]b[^2]c"` |
| Footnotes.ConvertCorrected | src/processor/footnote_processor.py:67-98 | corrected conversion: an unchanged text without records, and otherwise a text ending with the section |
| Footnotes.ConvertAgreesOnOneRecord | src/processor/footnote_processor.py:67-98 | with at most one record the as-written and the corrected conversions agree |
| Footnotes.CorrectedRewritesInPlace | src/processor/footnote_processor.py:81-89 | corrected: every extracted reference is replaced in place and every gap is kept |
| FootnoteMerge.AddFirstLookup | src/processor/footnote_processor.py:106-110 | after the first pass an id maps to the content of its first record |
| FootnoteMerge.AddFirstUnique | src/processor/footnote_processor.py:109-110 | the dict never holds an id twice |
| FootnoteMerge.SortAscending | src/processor/footnote_processor.py:123 | the items come out in ascending id order |
| FootnoteMerge.MergeFootnotes | src/processor/footnote_processor.py:100-126 | as written (each text through the as-written conversion): when no text has a footnote the merge is the texts joined by blank lines; otherwise it ends with the header and the merged lines, ascending by id |
| FootnoteMerge.MergeFootnotesCorrected | src/processor/footnote_processor.py:100-126 | the same two promises for the merge through the corrected conversion |
| FootnoteMerge.MergesAgree | src/processor/footnote_processor.py:112-115 | when every text has at most one record, the per-text conversions and the two merges agree |
| FootnoteMerge.MergedSection | src/processor/footnote_processor.py:100-126 | the section is present exactly when some text has a footnote. It lists each id once, ascending, with its first content |
| ImageAssembler.UsableIff | src/processor/markdown_assembler.py:28 | a record is kept exactly when the list holds a dict with both its position and its data |
| ImageAssembler.SortedImagesOrder | src/processor/markdown_assembler.py:27-30 | the sorted records are the usable ones, ascending by position, and equal positions keep list order |
| ImageAssembler.BlocksInOrder | src/processor/markdown_assembler.py:32-48 | there is one block per record, each that record's `![Image at position p](data)` block, in order |
| ImageAssembler.PiecesRebuildText | src/processor/markdown_assembler.py:32-54 | taking the image blocks out gives back the text |
| ImageAssembler.PiecesBeforeBlock | src/processor/markdown_assembler.py:35-48 | for records with non-negative positions in ascending order (`Placeable`), the text in front of the `i`-th block is the text up to that record's position, clamped to the text |
| ImageAssembler.Assemble | src/processor/markdown_assembler.py:7-64 | `assemble`. Its contract is stated by `AssembleShape`, `NoImagesKeepText`, `TocFirst` and `ImagesPreserveText` |
| ImageAssembler.AssembleShape | src/processor/markdown_assembler.py:7-64 | without a table of contents the document is the body. With one, it is the table, a blank line, the separator, a blank line and the body |
| ImageAssembler.NoImagesKeepText | src/processor/markdown_assembler.py:21-23 | with no images the text goes in unchanged |
| ImageAssembler.TocFirst | src/processor/markdown_assembler.py:12-14 | a non-empty table of contents and its separator start the document |
| ImageAssembler.ImagesPreserveText | src/processor/markdown_assembler.py:25-62 | with non-negative positions, the body has one block per usable record in ascending order. Removing the blocks gives the text back, and each block sits at its position clamped to the text. Clamping here holds only because the positions are non-negative: a negative one would wrap, as Python slicing does |
| LineCleanup.DropTrailingJunk | pdf2md-core/src/processor/markdown_assembler.py:50 | the cut is a prefix that leaves no trailing `%` or whitespace, and only such characters are removed |
| LineCleanup.Headed | pdf2md-core/src/processor/markdown_assembler.py:54-57 | the result starts with `"# "`, and a line already starting with it is unchanged |
| LineCleanup.CollectIsFilterMap | pdf2md-core/src/processor/markdown_assembler.py:45-58 | the loop keeps one line per non-blank input line, in order, cleaned. The first kept line becomes a heading |
| LineCleanup.CleanLinesOf | pdf2md-core/src/processor/markdown_assembler.py:45-66 | for text with content, the lines are its non-blank lines, stripped, cleaned, the first one a heading |
| LineCleanup.BlankCleanLines | pdf2md-core/src/processor/markdown_assembler.py:61-62 | a text of blank lines gives the placeholder alone |
| LineCleanup.SomeLineNonBlank | pdf2md-core/src/processor/markdown_assembler.py:45-62 | some line is non-blank exactly when the text is not all whitespace |
| ElementAssembler.TailShapeIff | pdf2md-core/src/processor/markdown_assembler.py:72 | the greedy reading of `\s*%*\s*` matches exactly the texts that split into whitespace, `%` signs and whitespace |
| ElementAssembler.TailStart | pdf2md-core/src/processor/markdown_assembler.py:72 | the substitution removes from the leftmost position from which the tail pattern matches |
| ElementAssembler.FinalCleanup | pdf2md-core/src/processor/markdown_assembler.py:72-73 | the final clean-up keeps a prefix that does not end in whitespace |
| ElementAssembler.CleanupKeepsClean | pdf2md-core/src/processor/markdown_assembler.py:72-73 | a text that ends in neither `%` nor whitespace is unchanged |
| ElementAssembler.AssembleDocument | pdf2md-core/src/processor/markdown_assembler.py:26-75 | the document never ends in whitespace |
| ElementAssembler.AssembleFirstPageOnly | pdf2md-core/src/processor/markdown_assembler.py:28-39 | no pages, a non-dict first page or empty Markdown give `""`, and pages after the first never matter |
| ElementAssembler.LineCleanIsDrop | pdf2md-core/src/processor/markdown_assembler.py:50-52 | the `rstrip()` after the substitution changes nothing |
| ElementAssembler.DocumentLinesOfText | pdf2md-core/src/processor/markdown_assembler.py:41-66 | the lines joined are the non-blank lines, stripped, cut of their trailing `%`/whitespace, the first one a heading |
| ElementAssembler.AssembleStartsWithHash | pdf2md-core/src/processor/markdown_assembler.py:41-75 | Markdown with content gives a non-empty document starting with `#` |
| ElementAssembler.AssembleUntitled | pdf2md-core/src/processor/markdown_assembler.py:61-75 | Markdown of blank lines gives `"# Untitled Document"` |
| ElementAssembler.Priority | pdf2md-core/src/processor/markdown_assembler.py:101-111 | a priority is 0..5 or 99 |
| ElementAssembler.SortKeyIsTuple | pdf2md-core/src/processor/markdown_assembler.py:96-99 | the integer key orders and equates elements exactly as the `(y, priority)` tuple does |
| ElementAssembler.SortElements | pdf2md-core/src/processor/markdown_assembler.py:94-99 | `_sort_elements`, a stable sort by `(y, priority)`. Its contract is stated by `SortKeyIsTuple`, `SortElementsOrder` and `SortElementsStable` |
| ElementAssembler.SortElementsOrder | pdf2md-core/src/processor/markdown_assembler.py:94-99 | the sorted elements are the input elements, ordered by `y` and then by priority |
| ElementAssembler.SortElementsStable | pdf2md-core/src/processor/markdown_assembler.py:94-99 | elements with equal `y` and priority keep their input order |
| ElementAssembler.ProcessText | pdf2md-core/src/processor/markdown_assembler.py:129-144 | `_process_text`. Its contract is stated by `ProcessTextSpec` |
| ElementAssembler.ProcessTextSpec | pdf2md-core/src/processor/markdown_assembler.py:129-144 | text renders to nothing exactly when it strips to nothing or to a lone `%`. Stripped text not ending in `%` passes through |
| ElementAssembler.ProcessHeading | pdf2md-core/src/processor/markdown_assembler.py:146-160 | `_process_heading`. Its contract is stated by `ProcessHeadingSpec` and `ProcessHeadingKeeps` |
| ElementAssembler.ProcessHeadingSpec | pdf2md-core/src/processor/markdown_assembler.py:146-160 | a heading renders to nothing exactly when its content is blank, and otherwise to a line starting with `"# "` |
| ElementAssembler.ProcessHeadingKeeps | pdf2md-core/src/processor/markdown_assembler.py:153-160 | a stripped, marked heading not ending in `%` is unchanged |
| ElementAssembler.ProcessEquation | pdf2md-core/src/processor/markdown_assembler.py:168-175 | `_process_equation`. Its contract is stated by `ProcessEquationSpec` |
| ElementAssembler.ProcessEquationSpec | pdf2md-core/src/processor/markdown_assembler.py:168-175 | one `$` on each side inline and two otherwise, around the stripped equation |
| ElementAssembler.ProcessTable | pdf2md-core/src/processor/markdown_assembler.py:177-196 | `_process_table`. Its contract is stated by `TableLines`, `SeparatorMatchesHeader` and `TableEdgeCases` |
| ElementAssembler.TableLines | pdf2md-core/src/processor/markdown_assembler.py:182-196 | the table is the header line, the separator line and one line per body row, or one empty line when there is no body |
| ElementAssembler.SeparatorMatchesHeader | pdf2md-core/src/processor/markdown_assembler.py:187-188 | the separator has as many `---` cells, and as many bars, as the header |
| ElementAssembler.TableEdgeCases | pdf2md-core/src/processor/markdown_assembler.py:179-184 | a string table passes through, and no rows give `""` |
| ElementAssembler.ProcessList | pdf2md-core/src/processor/markdown_assembler.py:198-212 | afterwards the stack has `level` entries: the old ones kept and `ordered` pushed. The line is `2*level` spaces, `"<level>."` or `-`, a space and the stripped content. A negative level fails |
| ResponseParser.ParseResponse | pdf2md-core/src/processor/gemini_integration.py:51-104 | `_parse_response`. Its contract is stated by `ResponseLines`, `LinesOfResponse`, `ParsedAgree` and `EmptyResponse` |
| ResponseParser.ResponseLines | pdf2md-core/src/processor/gemini_integration.py:55-81 | the lines are never empty, and the first starts with `"# "` |
| ResponseParser.ParsedAgree | pdf2md-core/src/processor/gemini_integration.py:83-94 | the Markdown starts with `"# "`. The elements are its lines, one per line, at `y = 20*i`, each a heading exactly when its line starts with `#`, and the first is a heading |
| ResponseParser.LinesOfResponse | pdf2md-core/src/processor/gemini_integration.py:55-81 | the lines are the non-blank lines of the response, stripped, cut of their trailing `%`/whitespace, the first one a heading |
| ResponseParser.EmptyResponse | pdf2md-core/src/processor/gemini_integration.py:55-77 | a blank response gives `"# Untitled Document"` and one heading element |
| Sorting.SortByKey | src/processor/markdown_assembler.py:30 | `sorted` returns a permutation of its input, ordered by the key |
| Sorting.SortByKeyStable | pdf2md-core/src/processor/markdown_assembler.py:96-99 | the sort is stable: per key value, elements keep their input order |
| Sorting.SortedUnique | src/processor/markdown_assembler.py:27-30 | sortedness and the per-key order determine the sorted sequence |

## Left out

- PDF extraction, meaning `fitz` and `get_text`, `get_images`, `extract_image`. A page is its blocks plus the base64 data of its first image, or `None` when fetching it raises.
  - `src/processor/image_processor.py`, which resizes, encodes and wraps images in base64, is not part of this model.
  - The image `rect` is not modelled, and neither are the printed warnings.
- The rest of `convert` after line 90: the LaTeX, heading, footnote and assembly calls on the combined text. Each of those stages is modelled on its own.
- The vision-API code: `process_page` and `batch_process`, the network client, and all of `src/processor/gemini_integration.py`.
- The front ends and the setup files: `src/web/app.py`, both `cli.py` files, the setup scripts and the `__init__.py` re-exports.
- `FootnoteProcessor.is_likely_footnote_section`. The pipeline never calls it, and it relies on a float page-height ratio.
- `_process_page`, `_process_element` and `_process_image` of the element assembler. They are dispatch code and string formatting, and `_process_image` has no property beyond its format string.
- The exceptions raised on malformed input. Dict items without `type`, or with a non-string `content`, are not representable.
- Unicode character classes. Whitespace, letters, digits, `isupper` and `\w` are their ASCII sets, and a non-ASCII character is none of them.
- A general regular-expression engine. Each pattern is its own scanner.
- The three inline substitutions of `_process_text`. Each rewrites a match to itself, so they are the identity and are left out.
- Python dicts are modelled as sequences of assignments where the last one wins (`Converter.Lookup`) or the first insertion stays (`FootnoteMerge`). Dict iteration order matches insertion order.
- The font info passed from `convert` to the heading resolver: `extract_headings` looks it up by line index, while `convert` keys it by character offset. Both are modelled as their code does, and the link between them is not.
- Converter.FoldImages: states order and bounds of the combined image records, not that they are exactly the pages' records moved in page order (that holds by definition of the fold).
- The `prev_headings` parameter of `detect_heading_level`: the code never reads it.
- ElementAssembler.ProcessTextSpec: states when the result is empty and that stripped text not ending in `%` passes through. For other text ending in `%` it does not spell out the result.

## Findings

| source | as written | input that shows it | evidently intended | confidence | as-written member | corrected member |
|---|---|---|---|---|---|---|
| src/processor/footnote_processor.py:81-89 | the loop rewrites references from the last to the first, yet still adds each rewrite's length change to the offset for the earlier ones | `"a[1]b[2]c\n1. x\n2. y"` makes the first line `"a[[^1][^2]c"` | working from the back already keeps earlier positions valid, so each reference is replaced in place: `"a[^1]b[^2]c"` | not executed | Footnotes.TwoReferencesDrift | Footnotes.CorrectedRewritesInPlace |
| src/converter.py:87-90 | `current_position` advances by a page's length plus one, but the pages are joined by the two-character `"\n\n"` | pages `"a"` and `"b"`, each with a font item at 0: the key of `b` becomes 2, which is the line feed in `"a\n\nb"`, and nothing is keyed at 3, where `b` sits | advance by length plus two, so that each page's keys point into its own text in the combined text | not executed | Converter.TwoPagesDrift | Converter.CorrectedKeysAligned |

Both the as-written and the corrected versions are modelled.

- Footnotes:
  - `Footnotes.Convert` and `Footnotes.ConvertToMarkdown` keep the loop as written.
  - `Footnotes.ConvertCorrected` replaces each reference at its own position.
  - The merge (`FootnoteMerge.MergeFootnotes`) keeps the as-written conversion, as `merge_footnotes` calls it, so it inherits the rewrite drift on any text with two or more records.
  - `FootnoteMerge.MergeFootnotesCorrected` uses the corrected conversion, and `FootnoteMerge.MergesAgree` shows the two merges agree when no text has more than one record.
- Converter:
  - `Converter.ConvertDocumentAsWritten` keeps the advance of one.
  - `Converter.ConvertDocument` advances by two.
  - `Converter.AsWrittenKeysShifted` and `Converter.CorrectedKeysAligned` state the two behaviours for every key of every page.
