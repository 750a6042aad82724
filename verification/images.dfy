/** `MarkdownAssembler.assemble` of `src/processor/markdown_assembler.py`: an optional
    table of contents in front, then the text with an image block spliced in at the
    position of every usable image record, the records taken in ascending position
    order. */
module ImageAssembler {
  import opened Strings
  import opened Optional
  import opened Sorting

  /** An item of the `images` list: something that is not a dict, or a dict that may
      or may not carry the `position` and `data` keys. */
  datatype Image = NotADict | Record(position: Option<int>, data: Option<string>)

  /** A record that passed the filter. */
  datatype Placed = Placed(position: int, data: string)

  /** The filter of the list comprehension: dicts that have both keys. */
  function Usable(images: seq<Image>): (r: seq<Placed>)
    ensures |r| <= |images|
  {
    if images == [] then []
    else
      var img := images[0];
      (if img.Record? && img.position.Some? && img.data.Some?
       then [Placed(img.position.value, img.data.value)] else []) + Usable(images[1..])
  }

  /** A record is kept exactly when some item of the list is a dict carrying its
      position and its data. */
  lemma {:induction false} UsableIff(images: seq<Image>, p: Placed)
    ensures p in Usable(images) <==> exists i :: 0 <= i < |images| && images[i] == Record(Some(p.position), Some(p.data))
  {
    if images != [] {
      UsableIff(images[1..], p);
      if p in Usable(images[1..]) {
        var i :| 0 <= i < |images[1..]| && images[1..][i] == Record(Some(p.position), Some(p.data));
        assert images[i + 1] == images[1..][i];
      }
      if exists i :: 0 <= i < |images| && images[i] == Record(Some(p.position), Some(p.data)) {
        var i :| 0 <= i < |images| && images[i] == Record(Some(p.position), Some(p.data));
        if i > 0 {
          assert images[1..][i - 1] == images[i];
        }
      }
    }
  }

  /** The sort key `lambda x: x['position']`. */
  function Position(p: Placed): int { p.position }

  /** `sorted(...)`: stable, by position. */
  function SortedImages(images: seq<Image>): seq<Placed> {
    SortByKey(Usable(images), Position)
  }

  /** The sorted records are the usable ones, ascending by position, and records with
      equal positions keep their order in the list. */
  lemma SortedImagesOrder(images: seq<Image>, k: int)
    ensures multiset(SortedImages(images)) == multiset(Usable(images))
    ensures SortedBy(SortedImages(images), Position)
    ensures WithKey(SortedImages(images), Position, k) == WithKey(Usable(images), Position, k)
  {
    SortByKeyStable(Usable(images), Position, k);
  }

  /** `"\n\n" + "![Image at position p](data)" + "\n\n"`. */
  function ImageBlock(p: Placed): string {
    "\n\n![Image at position " + IntToString(p.position) + "](" + p.data + ")\n\n"
  }

  /** The list `text_parts` the loop builds from position `cur` on: the text up to
      each image's position, the image's block, and at the end the rest of the text. */
  function TextParts(text: string, cur: int, imgs: seq<Placed>): (parts: seq<string>)
    ensures |parts| == 2 * |imgs| + 1
    decreases |imgs|
  {
    if imgs == [] then [PyDrop(text, cur)]
    else [PySlice(text, cur, imgs[0].position), ImageBlock(imgs[0])] + TextParts(text, imgs[0].position, imgs[1..])
  }

  /** The parts with the image blocks taken out: the even-numbered ones. */
  function WithoutBlocks(parts: seq<string>): (r: seq<string>)
    ensures |r| == (|parts| + 1) / 2
    decreases |parts|
  {
    if |parts| <= 1 then parts else [parts[0]] + WithoutBlocks(parts[2..])
  }

  /** The image blocks among the parts: the odd-numbered ones. */
  function OnlyBlocks(parts: seq<string>): (r: seq<string>)
    ensures |r| == |parts| / 2
    decreases |parts|
  {
    if |parts| <= 1 then [] else [parts[1]] + OnlyBlocks(parts[2..])
  }

  /** The blocks are one per record, each the record's own block, in the order given. */
  lemma {:induction false} BlocksInOrder(text: string, cur: int, imgs: seq<Placed>)
    ensures |OnlyBlocks(TextParts(text, cur, imgs))| == |imgs|
    ensures forall i :: 0 <= i < |imgs| ==> OnlyBlocks(TextParts(text, cur, imgs))[i] == ImageBlock(imgs[i])
    decreases |imgs|
  {
    if imgs != [] {
      var rest := TextParts(text, imgs[0].position, imgs[1..]);
      BlocksInOrder(text, imgs[0].position, imgs[1..]);
      assert TextParts(text, cur, imgs)[2..] == rest;
      assert forall i :: 1 <= i < |imgs| ==> imgs[i] == imgs[1..][i - 1];
    }
  }

  /** Positions never go down and none is negative. */
  predicate Placeable(cur: int, imgs: seq<Placed>) {
    0 <= cur &&
    (forall i :: 0 <= i < |imgs| ==> cur <= imgs[i].position) &&
    (forall i, j :: 0 <= i < j < |imgs| ==> imgs[i].position <= imgs[j].position)
  }

  /** A non-negative position clamped to a text of length `n`. */
  function Clamp(p: int, n: nat): (k: nat)
    ensures k <= n
    ensures 0 <= p <= n ==> k == p
  {
    if p < 0 then 0 else if p <= n then p else n
  }

  lemma WithoutBlocksCons(gap: string, block: string, rest: seq<string>)
    ensures WithoutBlocks([gap, block] + rest) == [gap] + WithoutBlocks(rest)
  {
    assert ([gap, block] + rest)[2..] == rest;
  }

  /** The first part is the text from `cur` up to the first record's position. */
  lemma FirstGap(text: string, cur: int, imgs: seq<Placed>)
    requires Placeable(cur, imgs) && imgs != []
    ensures Placeable(imgs[0].position, imgs[1..])
    ensures TextParts(text, cur, imgs) ==
      [text[Clamp(cur, |text|)..Clamp(imgs[0].position, |text|)], ImageBlock(imgs[0])] + TextParts(text, imgs[0].position, imgs[1..])
  {
    assert forall i :: 0 <= i < |imgs[1..]| ==> imgs[1..][i] == imgs[i + 1];
    var n := |text|;
    assert PyIndex(cur, n) == Clamp(cur, n);
    assert PyIndex(imgs[0].position, n) == Clamp(imgs[0].position, n);
    assert PySlice(text, cur, imgs[0].position) == text[Clamp(cur, n)..Clamp(imgs[0].position, n)];
  }

  /** Taking the image blocks out gives back the text from `cur` on. */
  lemma {:induction false} PiecesRebuildText(text: string, cur: int, imgs: seq<Placed>)
    requires Placeable(cur, imgs)
    ensures Join(WithoutBlocks(TextParts(text, cur, imgs)), "") == text[Clamp(cur, |text|)..]
    decreases |imgs|
  {
    if imgs == [] {
      assert WithoutBlocks(TextParts(text, cur, imgs)) == [PyDrop(text, cur)];
    } else {
      var n := |text|;
      var c, d := Clamp(cur, n), Clamp(imgs[0].position, n);
      FirstGap(text, cur, imgs);
      var rest := TextParts(text, imgs[0].position, imgs[1..]);
      PiecesRebuildText(text, imgs[0].position, imgs[1..]);
      WithoutBlocksCons(text[c..d], ImageBlock(imgs[0]), rest);
      JoinCons(text[c..d], WithoutBlocks(rest), "");
      assert text[c..] == text[c..d] + text[d..];
    }
  }

  /** The text pieces in front of the `i`-th block are the text from `cur` up to that
      record's position, clamped to the text. */
  lemma {:induction false} PiecesBeforeBlock(text: string, cur: int, imgs: seq<Placed>, i: nat)
    requires Placeable(cur, imgs) && i < |imgs|
    ensures Join(WithoutBlocks(TextParts(text, cur, imgs))[..i + 1], "") == text[Clamp(cur, |text|)..Clamp(imgs[i].position, |text|)]
    decreases i
  {
    var n := |text|;
    var c, d := Clamp(cur, n), Clamp(imgs[0].position, n);
    FirstGap(text, cur, imgs);
    var rest := TextParts(text, imgs[0].position, imgs[1..]);
    WithoutBlocksCons(text[c..d], ImageBlock(imgs[0]), rest);
    var w, wr := WithoutBlocks(TextParts(text, cur, imgs)), WithoutBlocks(rest);
    assert w == [text[c..d]] + wr;
    if i == 0 {
      assert w[..1] == [text[c..d]];
    } else {
      var e := Clamp(imgs[i].position, n);
      PiecesBeforeBlock(text, imgs[0].position, imgs[1..], i - 1);
      assert imgs[1..][i - 1] == imgs[i];
      assert Join(wr[..i], "") == text[d..e];
      assert w[..i + 1] == [text[c..d]] + wr[..i];
      JoinCons(text[c..d], wr[..i], "");
      assert text[c..e] == text[c..d] + text[d..e];
    }
  }

  /** The separator put after a table of contents. */
  const TocSeparator := "\n---\n"

  /** `if toc:`: a missing or empty table of contents is left out. */
  function Head(toc: Option<string>): seq<string> {
    if toc.Some? && toc.value != [] then [toc.value, TocSeparator] else []
  }

  /** `assemble`. */
  function Assemble(text: string, images: Option<seq<Image>>, toc: Option<string>): string {
    if images.None? || images.value == [] then Join(Head(toc) + [text], "\n\n")
    else Join(Head(toc) + [Join(TextParts(text, 0, SortedImages(images.value)), "")], "\n\n")
  }

  /** The body after the optional table of contents. */
  function Body(text: string, images: Option<seq<Image>>): string {
    if images.None? || images.value == [] then text
    else Join(TextParts(text, 0, SortedImages(images.value)), "")
  }

  /** The document is the body alone without a table of contents, and otherwise the
      table of contents, a blank line, the separator, a blank line and the body. */
  lemma AssembleShape(text: string, images: Option<seq<Image>>, toc: Option<string>)
    ensures toc.None? || toc.value == [] ==> Assemble(text, images, toc) == Body(text, images)
    ensures toc.Some? && toc.value != [] ==>
      Assemble(text, images, toc) == toc.value + "\n\n" + TocSeparator + "\n\n" + Body(text, images)
  {
    var b := Body(text, images);
    assert Assemble(text, images, toc) == Join(Head(toc) + [b], "\n\n");
    if toc.Some? && toc.value != [] {
      assert Head(toc) + [b] == [toc.value] + [TocSeparator, b];
      JoinCons(toc.value, [TocSeparator, b], "\n\n");
      JoinCons(TocSeparator, [b], "\n\n");
      assert [TocSeparator, b] == [TocSeparator] + [b];
    } else {
      assert Head(toc) + [b] == [b];
    }
  }

  /** With no images (a missing or empty list) the text goes in unchanged. */
  lemma NoImagesKeepText(text: string, images: Option<seq<Image>>)
    requires images.None? || images.value == []
    ensures Body(text, images) == text
  {
  }

  /** With a non-empty table of contents the document starts with it and its
      separator. */
  lemma TocFirst(text: string, images: Option<seq<Image>>, toc: Option<string>)
    requires toc.Some? && toc.value != []
    ensures StartsWith(Assemble(text, images, toc), toc.value + "\n\n" + TocSeparator)
  {
    AssembleShape(text, images, toc);
    StartsWithAppend(toc.value + "\n\n" + TocSeparator, "\n\n", Body(text, images));
  }

  /** Sorted non-negative positions can be placed from the start of the text. */
  lemma SortedPlaceable(images: seq<Image>)
    requires forall p :: p in Usable(images) ==> 0 <= p.position
    ensures Placeable(0, SortedImages(images))
  {
    var s := SortedImages(images);
    forall i | 0 <= i < |s|
      ensures 0 <= s[i].position
    {
      assert s[i] in multiset(s);
      assert s[i] in multiset(Usable(images));
    }
  }

  /** With non-negative positions, the body is the text with one block per usable
      record, in ascending position order; taking the blocks out gives the text back,
      and the text in front of the `i`-th block is the text up to that record's
      position, clamped to the text. */
  lemma ImagesPreserveText(text: string, images: seq<Image>)
    requires images != []
    requires forall p :: p in Usable(images) ==> 0 <= p.position
    ensures Body(text, Some(images)) == Join(TextParts(text, 0, SortedImages(images)), "")
    ensures Join(WithoutBlocks(TextParts(text, 0, SortedImages(images))), "") == text
    ensures |OnlyBlocks(TextParts(text, 0, SortedImages(images)))| == |Usable(images)|
    ensures forall i :: 0 <= i < |SortedImages(images)| ==>
      OnlyBlocks(TextParts(text, 0, SortedImages(images)))[i] == ImageBlock(SortedImages(images)[i]) &&
      Join(WithoutBlocks(TextParts(text, 0, SortedImages(images)))[..i + 1], "") == text[..Clamp(SortedImages(images)[i].position, |text|)]
  {
    var s := SortedImages(images);
    SortedPlaceable(images);
    PiecesRebuildText(text, 0, s);
    BlocksInOrder(text, 0, s);
    forall i | 0 <= i < |s|
      ensures Join(WithoutBlocks(TextParts(text, 0, s))[..i + 1], "") == text[..Clamp(s[i].position, |text|)]
    {
      PiecesBeforeBlock(text, 0, s, i);
    }
  }
}
