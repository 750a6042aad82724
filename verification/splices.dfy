/** Replacing spans of a text while holding offsets into the original: the edit, one
    step of the offset-carrying replacement both rewriters write
    (`result[:start + offset] + new + result[end + offset:]`), the loops built from it,
    and the one-pass rebuild from gaps and replacements they are compared with. */
module Splices {
  import opened Strings

  /** One replacement made by the loop: the span `[start, end)` and its new text. */
  datatype Edit = Edit(start: int, end: int, repl: string)

  /** The change in length one replacement makes. */
  function Delta(e: Edit): int { |e.repl| - (e.end - e.start) }

  /** One pass of the loop body, with Python slicing. */
  function Apply(result: string, offset: int, e: Edit): string {
    PyTake(result, e.start + offset) + e.repl + PyDrop(result, e.end + offset)
  }

  /** The loop run from a given state over the remaining edits. */
  function Fold(result: string, offset: int, es: seq<Edit>): string
    decreases |es|
  {
    if es == [] then result else Fold(Apply(result, offset, es[0]), offset + Delta(es[0]), es[1..])
  }

  /** The sum of the length changes of `es`, accumulated from the front. */
  function SumDeltas(es: seq<Edit>): int {
    if es == [] then 0 else SumDeltas(es[..|es| - 1]) + Delta(es[|es| - 1])
  }

  /** Spans inside `[pos, n]`, in order and not overlapping, stated one edit at a
      time: each starts no earlier than the previous one ends. */
  predicate Disjoint(es: seq<Edit>, pos: int, n: int)
    ensures Disjoint(es, pos, n) ==> pos <= n
    ensures Disjoint(es, pos, n) && es != [] ==> pos <= es[0].start <= es[0].end <= n
    decreases |es|
  {
    if es == [] then pos <= n
    else pos <= es[0].start <= es[0].end && Disjoint(es[1..], es[0].end, n)
  }

  /** The same condition over all pairs of edits. */
  ghost predicate PairwiseApart(es: seq<Edit>, pos: int, n: int) {
    pos <= n &&
    (forall i :: 0 <= i < |es| ==> pos <= es[i].start <= es[i].end <= n) &&
    (forall i, j :: 0 <= i < j < |es| ==> es[i].end <= es[j].start)
  }

  lemma {:induction false} DisjointIsPairwise(es: seq<Edit>, pos: int, n: int)
    ensures Disjoint(es, pos, n) <==> PairwiseApart(es, pos, n)
    decreases |es|
  {
    if es != [] {
      DisjointIsPairwise(es[1..], es[0].end, n);
      assert forall i :: 1 <= i < |es| ==> es[i] == es[1..][i - 1];
      if PairwiseApart(es, pos, n) {
        assert PairwiseApart(es[1..], es[0].end, n);
      }
    }
  }

  /** The intended result: the text between spans, verbatim and in order, alternating
      with the replacements. */
  function Rebuild(text: string, es: seq<Edit>, pos: nat): string
    requires pos <= |text| && Disjoint(es, pos, |text|)
    decreases |es|
  {
    if es == [] then text[pos..]
    else text[pos..es[0].start] + es[0].repl + Rebuild(text, es[1..], es[0].end)
  }

  /** The rebuild is longer than the text by exactly the accumulated offset. */
  lemma {:induction false} RebuildLength(text: string, es: seq<Edit>, pos: nat)
    requires pos <= |text| && Disjoint(es, pos, |text|)
    ensures |Rebuild(text, es, pos)| == |text| - pos + SumDeltas(es)
    decreases |es|
  {
    if es != [] {
      RebuildLength(text, es[1..], es[0].end);
      SumDeltasFront(es);
    }
  }

  lemma {:induction false} SumDeltasFront(es: seq<Edit>)
    requires es != []
    ensures SumDeltas(es) == Delta(es[0]) + SumDeltas(es[1..])
    decreases |es|
  {
    if |es| > 1 {
      var l := es[..|es| - 1];
      SumDeltasFront(l);
      assert l[1..] == es[1..][..|es[1..]| - 1];
      assert l[0] == es[0];
    }
  }

  /** The loop from the state where `prefix` has been built and the text from `pos`
      on is still original produces `prefix` followed by the rebuild of the rest. */
  lemma {:induction false} FoldRebuild(prefix: string, text: string, es: seq<Edit>, pos: nat)
    requires pos <= |text| && Disjoint(es, pos, |text|)
    ensures Fold(prefix + text[pos..], |prefix| - pos, es) == prefix + Rebuild(text, es, pos)
    decreases |es|
  {
    if es != [] {
      var e := es[0];
      var prefix' := prefix + text[pos..e.start] + e.repl;
      ApplyAtBoundary(prefix, text, pos, e);
      FoldRebuild(prefix', text, es[1..], e.end);
      var rest := Rebuild(text, es[1..], e.end);
      assert Rebuild(text, es, pos) == text[pos..e.start] + e.repl + rest;
      Regroup4(prefix, text[pos..e.start], e.repl, rest);
    }
  }

  lemma Regroup4(a: string, b: string, c: string, d: string)
    ensures a + (b + c + d) == (a + b + c) + d
  {
  }

  /** An edit inside the text, applied with no offset, replaces exactly its span. */
  lemma ApplyInside(text: string, e: Edit)
    requires 0 <= e.start <= e.end <= |text|
    ensures Apply(text, 0, e) == text[..e.start] + e.repl + text[e.end..]
  {
  }

  /** One edit applied where the untouched text starts at `pos`, with the matching
      offset, moves the boundary to the end of the span. */
  lemma ApplyAtBoundary(prefix: string, text: string, pos: nat, e: Edit)
    requires pos <= e.start <= e.end <= |text|
    ensures Apply(prefix + text[pos..], |prefix| - pos, e) == (prefix + text[pos..e.start] + e.repl) + text[e.end..]
    ensures |prefix| - pos + Delta(e) == |prefix + text[pos..e.start] + e.repl| - e.end
  {
    var result := prefix + text[pos..];
    var offset := |prefix| - pos;
    assert PyTake(result, e.start + offset) == prefix + text[pos..e.start];
    assert PyDrop(result, e.end + offset) == text[e.end..];
  }

  /** For spans in order and apart, the accumulator loop equals the one-pass rebuild
      from gaps and replacements. */
  lemma FoldIsRebuild(text: string, es: seq<Edit>)
    requires Disjoint(es, 0, |text|)
    ensures Fold(text, 0, es) == Rebuild(text, es, 0)
    ensures |Fold(text, 0, es)| == |text| + SumDeltas(es)
  {
    FoldRebuild([], text, es, 0);
    assert [] + text[0..] == text;
    var r := Rebuild(text, es, 0);
    assert Fold(text, 0, es) == [] + r == r;
    RebuildLength(text, es, 0);
    assert |r| == |text| + SumDeltas(es);
  }

  /** The first `n` edits applied from the `n`-th back to the first, each shifted by
      the length change of the edits applied before it. */
  function ReverseFrom(result: string, offset: int, es: seq<Edit>, n: nat): string
    requires n <= |es|
    decreases n
  {
    if n == 0 then result
    else ReverseFrom(Apply(result, offset, es[n - 1]), offset + Delta(es[n - 1]), es, n - 1)
  }

  /** All the edits applied from the last to the first. */
  function ReverseFold(result: string, offset: int, es: seq<Edit>): string {
    ReverseFrom(result, offset, es, |es|)
  }

  lemma ReverseFoldOne(result: string, offset: int, e: Edit)
    ensures ReverseFold(result, offset, [e]) == Apply(result, offset, e)
  {
    assert ReverseFold(result, offset, [e]) == ReverseFrom(Apply(result, offset, e), offset + Delta(e), [e], 0);
  }

  /** The loop over the edits from the last to the first: each applied at its span
      shifted by the offset, which then grows by the edit's length change. */
  method ApplyFromLast(text: string, es: seq<Edit>) returns (result: string)
    ensures result == ReverseFold(text, 0, es)
  {
    result := text;
    var offset := 0;
    var i := |es|;
    while i > 0
      invariant 0 <= i <= |es|
      invariant ReverseFrom(result, offset, es, i) == ReverseFold(text, 0, es)
    {
      result := Apply(result, offset, es[i - 1]);
      offset := offset + Delta(es[i - 1]);
      i := i - 1;
    }
  }

  /** The edits applied from the last to the first with no shift: an edit never moves
      the text before its own span. */
  function ReverseSplice(text: string, es: seq<Edit>): string
    decreases |es|
  {
    if es == [] then text
    else ReverseSplice(Apply(text, 0, es[|es| - 1]), es[..|es| - 1])
  }

  /** Spans that all end by `k` see only the text before `k`. */
  lemma {:induction false} RebuildPrefix(text: string, es: seq<Edit>, pos: nat, k: nat)
    requires pos <= k <= |text| && Disjoint(es, pos, k)
    ensures Disjoint(es, pos, |text|)
    ensures Rebuild(text, es, pos) == Rebuild(text[..k], es, pos) + text[k..]
    decreases |es|
  {
    if es != [] {
      var e := es[0];
      RebuildPrefix(text, es[1..], e.end, k);
      assert text[..k][pos..e.start] == text[pos..e.start];
      assert text[..k][e.start..] == text[e.start..k];
    } else {
      assert text[..k][pos..] + text[k..] == text[pos..];
    }
  }

  /** An edit after all the others keeps the sequence in order and apart, and only
      such an edit does. */
  lemma {:induction false} DisjointSnoc(es: seq<Edit>, e: Edit, pos: int, n: int)
    ensures Disjoint(es + [e], pos, n) <==> Disjoint(es, pos, e.start) && e.start <= e.end <= n
    decreases |es|
  {
    if es != [] {
      assert (es + [e])[1..] == es[1..] + [e];
      DisjointSnoc(es[1..], e, es[0].end, n);
    }
  }

  /** The rebuild with one more edit at the end. */
  lemma {:induction false} RebuildSnoc(text: string, es: seq<Edit>, e: Edit, pos: nat)
    requires pos <= e.start <= e.end <= |text| && Disjoint(es, pos, e.start)
    ensures Disjoint(es + [e], pos, |text|)
    ensures Rebuild(text, es + [e], pos) == Rebuild(text[..e.start], es, pos) + e.repl + text[e.end..]
    decreases |es|
  {
    DisjointSnoc(es, e, pos, |text|);
    var all := es + [e];
    var head := text[..e.start];
    if es == [] {
      assert all == [e];
      RebuildOne(text, e, pos);
    } else {
      var x := es[0];
      assert all[0] == x && all[1..] == es[1..] + [e];
      RebuildSnoc(text, es[1..], e, x.end);
      var gap := text[pos..x.start];
      var mid := Rebuild(head, es[1..], x.end);
      var tail := e.repl + text[e.end..];
      assert Rebuild(text, all, pos) == gap + x.repl + (mid + tail);
      assert Rebuild(head, es, pos) == gap + x.repl + mid;
      Regroup3(gap + x.repl, mid, tail);
    }
  }

  lemma RebuildOne(text: string, e: Edit, pos: nat)
    requires pos <= e.start <= e.end <= |text|
    ensures Disjoint([e], pos, |text|)
    ensures Rebuild(text, [e], pos) == text[..e.start][pos..] + e.repl + text[e.end..]
  {
    assert [e][1..] == [];
  }


  /** A single edit inside the text, run through the loop, replaces exactly its span. */
  lemma SpliceOne(text: string, e: Edit)
    requires 0 <= e.start <= e.end <= |text|
    ensures ReverseFold(text, 0, [e]) == text[..e.start] + e.repl + text[e.end..]
  {
    ReverseFoldOne(text, 0, e);
    ApplyInside(text, e);
  }

  /** Applying edits from the back without shifting gives the one-pass rebuild, for
      any number of edits that are in order and apart. */
  lemma {:induction false} ReverseSpliceIsRebuild(text: string, es: seq<Edit>)
    requires Disjoint(es, 0, |text|)
    ensures ReverseSplice(text, es) == Rebuild(text, es, 0)
    decreases |es|
  {
    if es != [] {
      var init, e := es[..|es| - 1], es[|es| - 1];
      assert es == init + [e];
      DisjointSnoc(init, e, 0, |text|);
      var text' := Apply(text, 0, e);
      assert text' == text[..e.start] + e.repl + text[e.end..];
      RebuildSnoc(text, init, e, 0);
      RebuildPrefix(text', init, 0, e.start);
      ReverseSpliceIsRebuild(text', init);
      assert text'[..e.start] == text[..e.start];
      assert text'[e.start..] == e.repl + text[e.end..];
    }
  }
}
