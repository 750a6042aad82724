/** The textual heading shapes of `src/processor/heading_processor.py`, each the exact
    set of (ASCII) strings that one of its anchored regular expressions accepts with
    `re.match` and no flags: `.` stops at a line feed and `$` matches at the end of
    the text or just before a line feed that ends it. */
module HeadingShapes {
  import opened Strings

  predicate IsHash(c: char) { c == '#' }

  predicate NotSpace(c: char) { !IsSpace(c) }

  predicate IsDigitOrDot(c: char) { IsDigit(c) || c == '.' }

  predicate IsLetterOrSpace(c: char) { IsLetter(c) || IsSpace(c) }

  predicate IsUpperOrSpace(c: char) { IsUpper(c) || IsSpace(c) }

  /** `.+$` matches at `i`: at least one character before the next line feed, and that
      line feed (if any) is the last character of the text. */
  predicate DotsToEnd(s: string, i: nat)
    requires i <= |s|
  {
    var e := NextNewline(s, i);
    i < e && (e == |s| || e == |s| - 1)
  }

  /** `\s+.+$` matches at `i` (the whitespace run may give characters back). */
  predicate SpacesThenDotsToEnd(s: string, i: nat)
    requires i <= |s|
  {
    exists j :: i < j <= |s| && AllSpace(s[i..j]) && DotsToEnd(s, j)
  }

  /** `^#{1,6}\s+.+$`: the leading `#` run must be 1..6 long, since a longer run leaves
      a `#` where the whitespace has to start. */
  predicate MarkdownShape(s: string) {
    var n := RunFrom(s, 0, IsHash);
    1 <= n <= 6 && SpacesThenDotsToEnd(s, n)
  }

  /** No dot is followed by another dot. */
  predicate NoDoubleDot(t: string) {
    forall k :: 0 <= k < |t| - 1 && t[k] == '.' ==> t[k + 1] != '.'
  }

  /** `(\d+\.)+` matches the whole of a digit-and-dot string `t`. */
  predicate DottedGroups(t: string) {
    |t| >= 2 && IsDigit(t[0]) && t[|t| - 1] == '.' && NoDoubleDot(t)
  }

  /** `\d+(?:\.\d+)*\.?` matches the whole of a digit-and-dot string `t`. */
  predicate DottedNumber(t: string) {
    |t| >= 1 && IsDigit(t[0]) && NoDoubleDot(t)
  }

  /** `^(\d+\.)+\s+.+$`. The numeric prefix must be the whole leading digit-and-dot
      run, because whitespace has to follow it. */
  predicate NumberedShape(s: string) {
    var m := RunFrom(s, 0, IsDigitOrDot);
    DottedGroups(s[..m]) && SpacesThenDotsToEnd(s, m)
  }

  /** `^\d+(?:\.\d+)*\.?\s+.+$`, the section-number shape the level is read from. */
  predicate SectionNumberShape(s: string) {
    var m := RunFrom(s, 0, IsDigitOrDot);
    DottedNumber(s[..m]) && SpacesThenDotsToEnd(s, m)
  }

  /** `^[A-Z][A-Za-z\s]+:`: the letter-and-space run after the capital must be
      followed directly by the colon. */
  predicate TitleShape(s: string) {
    |s| >= 1 && IsUpper(s[0]) &&
    var k := RunFrom(s, 1, IsLetterOrSpace);
    k >= 1 && 1 + k < |s| && s[1 + k] == ':'
  }

  /** `^[A-Z][A-Z\s]+[A-Z]$` with `$` at position `e`. */
  predicate CapsUpTo(s: string, e: nat)
    requires e <= |s|
  {
    e >= 3 && IsUpper(s[0]) && IsUpper(s[e - 1]) &&
    forall k :: 1 <= k < e - 1 ==> IsUpperOrSpace(s[k])
  }

  /** `^[A-Z][A-Z\s]+[A-Z]$`. */
  predicate CapsShape(s: string) {
    CapsUpTo(s, |s|) || (|s| >= 1 && s[|s| - 1] == '\n' && CapsUpTo(s, |s| - 1))
  }

  /** Every text of the second shape is also of the fifth: `(\d+\.)+` is a special
      case of `\d+(?:\.\d+)*\.?`. */
  lemma NumberedIsSectionNumber(s: string)
    requires NumberedShape(s)
    ensures SectionNumberShape(s)
  {
  }

  /** `text.split()[0]` for a text that is not all whitespace: the first maximal run
      of non-whitespace characters. */
  function FirstWord(s: string): (w: string)
    requires !AllSpace(s)
    ensures |w| > 0 && forall k :: 0 <= k < |w| ==> !IsSpace(w[k])
    ensures !IsSpace(s[0]) ==> w == s[..RunFrom(s, 0, NotSpace)]
  {
    var i := LeadingSpaces(s);
    var n := RunFrom(s, i, NotSpace);
    s[i..i + n]
  }

  /** `len(text.split())`, counted as the number of word ends: non-whitespace
      characters followed by whitespace or by the end of the text. */
  function WordCount(s: string): nat
  {
    if s == [] then 0
    else (if !IsSpace(s[0]) && (|s| == 1 || IsSpace(s[1])) then 1 else 0) + WordCount(s[1..])
  }

  /** A single space separates words: the count of the joined text is the sum. */
  lemma {:induction false} WordCountSpaceJoin(a: string, b: string)
    ensures WordCount(a + " " + b) == WordCount(a) + WordCount(b)
    decreases |a|
  {
    if a == [] {
      assert a + " " + b == [' '] + b;
      assert ([' '] + b)[1..] == b;
    } else {
      assert (a + " " + b)[1..] == a[1..] + " " + b;
      WordCountSpaceJoin(a[1..], b);
    }
  }

  /** A non-empty text without whitespace is one word. */
  lemma {:induction false} WordCountOneWord(w: string)
    requires |w| > 0 && forall k :: 0 <= k < |w| ==> !IsSpace(w[k])
    ensures WordCount(w) == 1
    decreases |w|
  {
    if |w| > 1 {
      WordCountOneWord(w[1..]);
      assert WordCount(w) == WordCount(w[1..]);
    }
  }

  /** `len(re.findall(r'\d+', t))`: the number of maximal digit runs. */
  function DigitRuns(t: string): (n: nat)
    ensures |t| > 0 && IsDigit(t[0]) ==> n >= 1
    decreases |t|
  {
    if t == [] then 0
    else if !IsDigit(t[0]) then DigitRuns(t[1..])
    else
      var n := RunFrom(t, 0, IsDigit);
      1 + DigitRuns(t[n..])
  }

  /** `str.isupper()` on ASCII: some capital letter and no small one. */
  predicate IsUpperText(s: string) {
    (exists k :: 0 <= k < |s| && IsUpper(s[k])) && forall k :: 0 <= k < |s| ==> !IsLower(s[k])
  }
}
