// When the places of sections, found on the visible text, fit the text itself.
module MaskedPlaces {
  import opened Options
  import opened TextOffsets
  import opened Lines
  import opened CodeSpans
  import opened Headings
  import opened MarkdownMasks

  // Section number `n` ends where line `m` starts, or with the last line.
  ghost predicate EndsAtLine(hs: seq<Section>, n: nat, m: nat, count: nat) {
    || (exists j: nat :: ClosedBy(hs, n, j) && m == hs[j].line - 1)
    || (NeverClosed(hs, n) && m == count)
  }

  // In these lines the section covers the units of the lines from `first` up to `m`,
  // and no others.
  ghost predicate CoversLines(lines: seq<Text>, x: Section, first: nat, m: nat) {
    forall k: nat, i: nat | k < |lines| && i < |lines[k]| :: CoversUnit(lines, x, k, i) <==> first <= k < m
  }

  predicate CoversUnit(lines: seq<Text>, x: Section, k: nat, i: nat)
    requires k < |lines|
  {
    Covers(x, Offset(lines, k) + i)
  }

  // The last line that must stand in its place for the section to fit: the heading that
  // closes it, or its own if none does.
  function LastPlace(first: nat, m: nat, count: nat): nat {
    if m < count then m else first
  }

  // What the section on the visible text and the lines of the text have to do with each
  // other, line by line.
  ghost predicate Related(lines: seq<Text>, seen: seq<Text>, x: Section, first: nat, m: nat) {
    && |lines| == |seen| && first < m <= |lines| && x.end.Some?
    && x.start == Offset(seen, first) && lines[first] != []
    && (m < |lines| ==> lines[m] != [] && x.end.value == Offset(seen, m))
    && (m == |lines| ==> Offset(lines, m) <= x.end.value + 1)
  }

  lemma FitsWhenPlacesFit(lines: seq<Text>, seen: seq<Text>, x: Section, first: nat, m: nat)
    requires Related(lines, seen, x, first, m)
    requires Offset(lines, first) == Offset(seen, first)
    requires m < |lines| ==> Offset(lines, m) == Offset(seen, m)
    ensures CoversLines(lines, x, first, m)
  {
    forall k: nat, i: nat | k < |lines| && i < |lines[k]| ensures CoversUnit(lines, x, k, i) <==> first <= k < m {
      PlaceIsOrder(lines, first, k, i);
      if m < |lines| {
        PlaceIsOrder(lines, m, k, i);
      } else {
        OffsetsGrow(lines, k, m);
      }
    }
  }

  lemma PlaceIsOrder(lines: seq<Text>, j: nat, k: nat, i: nat)
    requires j < |lines| && k < |lines| && i < |lines[k]|
    ensures Offset(lines, j) <= Offset(lines, k) + i <==> j <= k
  {
    if k < j {
      OffsetsGrow(lines, k, j);
    } else if j < k {
      OffsetsGrow(lines, j, k);
    }
  }

  // A heading that comes too early is not covered; a closing heading that comes too
  // early is.
  lemma PlacesFitWhenFits(lines: seq<Text>, seen: seq<Text>, x: Section, first: nat, m: nat)
    requires Related(lines, seen, x, first, m) && CoversLines(lines, x, first, m)
    requires Offset(lines, first) <= Offset(seen, first)
    requires m < |lines| ==> Offset(lines, m) <= Offset(seen, m)
    ensures Offset(lines, first) == Offset(seen, first)
    ensures m < |lines| ==> Offset(lines, m) == Offset(seen, m)
  {
    assert CoversUnit(lines, x, first, 0);
    if m < |lines| {
      assert !CoversUnit(lines, x, m, 0);
      OffsetsGrow(lines, first, m);
    }
  }

  lemma EmptyStaysEmpty(lines: seq<Text>, masked: seq<Text>, k: nat)
    requires CodeMasked(lines, masked) && k < |lines|
    ensures masked[k] == [] <==> lines[k] == []
  {
    hide CodeMasked, KeepsLength, FenceBefore, FenceOpened;
    MarkdownMasks.SameCount(lines, masked);
    CodeMaskIsPointwise(lines, masked, k);
    OnlyTrailingTicksDangle([]);
  }

  // The lines of the three texts.
  lemma RelatedLines(text: Text, visible: Text, classify: Classifier, hs: seq<Section>, sections: seq<Section>, n: nat,
                     m: nat)
    requires Visible(text, visible) && SectionsOf(visible, classify, sections) && classify([]).None?
    requires hs == Headings.Headings(Split(visible), classify, |Split(visible)|) && n < |hs| == |sections|
    requires EndsAtLine(hs, n, m, |Split(visible)|)
    ensures 1 <= hs[n].line && Related(Split(MaskHtmlComments(text)), Split(visible), sections[n], hs[n].line - 1, m)
  {
    hide Split, Visible, NeverClosed, MaskHtmlComments, Headings.Headings, Offset, SectionsOf, AtItsLine;
    var lines, seen := Split(MaskHtmlComments(text)), Split(visible);
    HeadingAtItsLine(seen, classify, hs, n);
    HeadingLineIsNotEmpty(text, visible, classify, hs[n]);
    EndsApart(visible, classify, hs, sections, n, m);
    if m < |seen| {
      var j: nat :| ClosedBy(hs, n, j) && m == hs[j].line - 1;
      HeadingAtItsLine(seen, classify, hs, j);
      HeadingLineIsNotEmpty(text, visible, classify, hs[j]);
    } else {
      BaseIsShorter(text, visible);
      LinesSpanText(MaskHtmlComments(text));
    }
  }

  lemma HeadingAtItsLine(lines: seq<Text>, classify: Classifier, hs: seq<Section>, i: nat)
    requires hs == Headings.Headings(lines, classify, |lines|) && i < |hs|
    ensures AtItsLine(lines, classify, hs[i], |lines|) && 1 <= hs[i].line <= |lines|
  {
    hide Headings.Headings;
    HeadingsInOrder(lines, classify, |lines|);
  }

  lemma HeadingLineIsNotEmpty(text: Text, visible: Text, classify: Classifier, h: Section)
    requires Visible(text, visible) && classify([]).None?
    requires AtItsLine(Split(visible), classify, h, |Split(visible)|)
    ensures |Split(MaskHtmlComments(text))| == |Split(visible)|
    ensures Split(MaskHtmlComments(text))[h.line - 1] != []
  {
    hide Split, Join, CodeMasked, MaskHtmlComments;
    var masked: seq<Text> :|
      masked != [] && CodeMasked(Split(text), masked) && visible == MaskHtmlComments(Join(masked));
    VisibleLines(text, visible, masked);
    BaseLines(text, MaskHtmlComments(text));
    EmptyStaysEmpty(Split(text), masked, h.line - 1);
  }

  lemma LinesSpanText(text: Text)
    ensures Offset(Split(text), |Split(text)|) == |text| + 1
  {
    var last := |Split(text)| - 1;
    JoinOfSplit(text);
    LineAtOffset(Split(text), last);
  }

  // Where the section ends, by places and by lines.
  lemma EndsApart(visible: Text, classify: Classifier, hs: seq<Section>, sections: seq<Section>, n: nat, m: nat)
    requires SectionsOf(visible, classify, sections)
    requires hs == Headings.Headings(Split(visible), classify, |Split(visible)|) && n < |hs| == |sections|
    requires EndsAtLine(hs, n, m, |Split(visible)|)
    ensures 1 <= hs[n].line && hs[n].line - 1 < m <= |Split(visible)|
    ensures sections[n].start == Offset(Split(visible), hs[n].line - 1) && sections[n].end.Some?
    ensures if m < |Split(visible)| then sections[n].end.value == Offset(Split(visible), m)
            else sections[n].end.value == |visible|
  {
    hide Split, Headings.Headings, Offset, SectionsOf, NeverClosed;
    EndByPlace(visible, classify, hs, sections, n);
    HeadingsInOrder(Split(visible), classify, |Split(visible)|);
    if j: nat :| ClosedBy(hs, n, j) && m == hs[j].line - 1 {
      EndIsDetermined(hs, n, |visible|, sections[n].end.value, hs[j].start);
    } else {
      EndIsDetermined(hs, n, |visible|, sections[n].end.value, |visible|);
    }
  }

  lemma EndByPlace(visible: Text, classify: Classifier, hs: seq<Section>, sections: seq<Section>, n: nat)
    requires SectionsOf(visible, classify, sections)
    requires hs == Headings.Headings(Split(visible), classify, |Split(visible)|) && n < |hs| == |sections|
    ensures sections[n].start == hs[n].start && sections[n].end.Some?
    ensures EndsAt(hs, n, sections[n].end.value, |visible|)
  {
    hide Split, Headings.Headings, EndsAt;
  }

  lemma BaseIsShorter(text: Text, visible: Text)
    requires Visible(text, visible)
    ensures |MaskHtmlComments(text)| <= |visible|
  {
    hide Split, Join, CodeMasked, Offset;
    var masked: seq<Text> :|
      masked != [] && CodeMasked(Split(text), masked) && visible == MaskHtmlComments(Join(masked));
    var lines := Split(text);
    MarkdownMasks.SameCount(lines, masked);
    var last := |lines| - 1;
    JoinOfSplit(text);
    LineAtOffset(lines, last);
    LineAtOffset(masked, last);
    OffsetsKeptUntilGrowth(lines, masked, last);
    CodeMaskIsPointwise(lines, masked, last);
  }

  // The exact condition under which a section found on the visible text covers its own
  // lines in the text and no others: no line grows before its heading, and none before
  // the heading that closes it, if one does. No pattern for headings matches the empty line.
  lemma SectionFitsIffNothingGrows(text: Text, visible: Text, classify: Classifier, hs: seq<Section>,
                                   sections: seq<Section>, n: nat, m: nat)
    requires Visible(text, visible) && SectionsOf(visible, classify, sections) && classify([]).None?
    requires hs == Headings.Headings(Split(visible), classify, |Split(visible)|) && n < |hs|
    requires EndsAtLine(hs, n, m, |Split(visible)|)
    ensures |sections| == |hs| && 1 <= hs[n].line <= |Split(text)| == |Split(visible)|
    ensures CoversLines(Split(MaskHtmlComments(text)), sections[n], hs[n].line - 1, m)
            <==> forall j: nat | j < LastPlace(hs[n].line - 1, m, |Split(text)|) :: !Grows(Split(text), j)
  {
    assert |sections| == |hs|;
    RelatedLines(text, visible, classify, hs, sections, n, m);
    hide Split, Visible, SectionsOf, MaskHtmlComments, Headings.Headings, EndsAtLine, Grows, CoversLines;
    FitsIffNothingGrows(text, visible, sections[n], hs[n].line - 1, m);
  }

  lemma FitsIffNothingGrows(text: Text, visible: Text, x: Section, first: nat, m: nat)
    requires Visible(text, visible) && Related(Split(MaskHtmlComments(text)), Split(visible), x, first, m)
    ensures first < |Split(text)| == |Split(visible)|
    ensures CoversLines(Split(MaskHtmlComments(text)), x, first, m)
            <==> forall j: nat | j < LastPlace(first, m, |Split(text)|) :: !Grows(Split(text), j)
  {
    hide Split, Visible, MaskHtmlComments, Grows, CoversLines, Offset;
    var base := MaskHtmlComments(text);
    var lines, seen := Split(base), Split(visible);
    PlaceOrder(text, visible, base, first);
    if m < |lines| {
      PlaceOrder(text, visible, base, m);
    }
    if CoversLines(lines, x, first, m) {
      PlacesFitWhenFits(lines, seen, x, first, m);
    }
    if Offset(lines, first) == Offset(seen, first) && (m < |lines| ==> Offset(lines, m) == Offset(seen, m)) {
      FitsWhenPlacesFit(lines, seen, x, first, m);
    }
  }

  lemma PlaceOrder(text: Text, visible: Text, base: Text, k: nat)
    requires Visible(text, visible) && base == MaskHtmlComments(text) && k < |Split(base)|
    ensures |Split(base)| == |Split(text)| == |Split(visible)|
    ensures Offset(Split(base), k) <= Offset(Split(visible), k)
    ensures Offset(Split(base), k) == Offset(Split(visible), k) <==> forall j: nat | j < k :: !Grows(Split(text), j)
  {
    hide Split, Join, CodeMasked, Grows, Offset;
    BaseLines(text, base);
    PlacesKept(text, visible, base, k);
    var masked: seq<Text> :|
      masked != [] && CodeMasked(Split(text), masked) && visible == MaskHtmlComments(Join(masked));
    VisibleLines(text, visible, masked);
    SameLengthsSameOffsets(Split(visible), masked, k);
    SameLengthsSameOffsets(Split(base), Split(text), k);
    OffsetsKeptUntilGrowth(Split(text), masked, k);
  }

  // ----- a text where the places do not fit

  // A heading line without backticks and without a comment.
  predicate PlainHeading(h: Text) {
    h != [] && h[0] == '#' as int && TICK !in h && LF !in h && '<' as int !in h
  }

  // The dated heading as the repository writes it.
  const DATED_HEADING: string := "# Dated " + "historical " + "evidence, " + "not current " + "certification"

  // The units of ASCII text.
  function Ascii(s: string): (t: Text)
    ensures |t| == |s|
  {
    seq(|s|, i requires 0 <= i < |s| => Unit16(s[i]))
  }

  function Unit16(c: char): Unit {
    if c < 128 as char then c as int else 0xFFFD
  }

  predicate Plain(s: string) {
    forall i | 0 <= i < |s| :: s[i] != '`' && s[i] != '\n' && s[i] != '<'
  }

  lemma PlainTogether(s: string, t: string)
    requires Plain(s) && Plain(t)
    ensures Plain(s + t)
  {
  }

  lemma DatedHeadingIsPlain()
    ensures |DATED_HEADING| == 54 && PlainHeading(Ascii(DATED_HEADING))
  {
    PlainTogether("# Dated ", "historical ");
    PlainTogether("# Dated " + "historical ", "evidence, ");
    PlainTogether("# Dated " + "historical " + "evidence, ", "not current ");
    PlainTogether("# Dated " + "historical " + "evidence, " + "not current ", "certification");
    assert Plain(DATED_HEADING) && DATED_HEADING[0] == '#';
    PlainUnits(DATED_HEADING);
  }

  lemma PlainUnits(s: string)
    requires Plain(s) && s != "" && s[0] == '#'
    ensures PlainHeading(Ascii(s))
  {
  }

  lemma NoTicksNoMask(line: Text, chars: Text)
    requires TICK !in line && MaskOf(line, chars)
    ensures chars == line
  {
    hide MaskOf, Spans, Unclosed, Dangles;
    OnlyTrailingTicksDangle(line);
    MaskIsPointwise(line, chars);
    forall i: nat | i < |line| ensures !InSpan(Spans(line, 0), i) {
      if s :| s in Spans(line, 0) && Within(s, i) {
        SpansAreCode(line, 0, s);
      }
    }
  }

  lemma {:induction false} NoComments(text: Text, i: nat)
    requires '<' as int !in text
    ensures Comments(text, i) == []
    decreases |text| - i
  {
    if i < |text| {
      NoComments(text, i + 1);
      if At(text, i, COMMENT) {
        OpensWithLess(text, i);
      }
    }
  }

  lemma OpensWithLess(text: Text, i: nat)
    requires At(text, i, COMMENT)
    ensures '<' as int in text
  {
    assert text[i..i + |COMMENT|][0] == text[i];
  }

  lemma NoLessNoMask(text: Text)
    requires '<' as int !in text
    ensures MaskHtmlComments(text) == text
  {
    NoComments(text, 0);
  }

  lemma GrownLines(n: nat, h: Text, text: Text, masked: seq<Text>)
    requires n > 0 && PlainHeading(h) && text == OpenEnded(n) + [LF] + h && CodeMasked(Split(text), masked)
    ensures Split(text) == [OpenEnded(n), h] && masked == [['a' as int] + Blanks(2 * n), h]
    ensures Grows(Split(text), 0)
  {
    hide Spans, Unclosed, Dangling, MaskOf, KeepsLength;
    var lines := [OpenEnded(n), h];
    assert Join(lines) == text;
    SplitOfJoin(lines);
    assert FenceOpened(lines[0]) == None && FenceOpened(lines[1]) == None;
    assert LineMasked(lines, 0, masked[0]) && LineMasked(lines, 1, masked[1]);
    TrailingRunGrows(n, masked[0]);
    NoTicksNoMask(h, masked[1]);
  }

  lemma GrownHeadings(n: nat, h: Text, head: Head, classify: Classifier, lines: seq<Text>)
    requires lines == [['a' as int] + Blanks(2 * n), h] && classify(h) == Some(head) && classify(lines[0]).None?
    ensures Headings.Headings(lines, classify, 2)
            == [Section(head.level, head.title, 2, 2 * n + 2, 2 * n + 2 + |h| + 1, None)]
  {
    assert Offset(lines, 1) == 2 * n + 2;
    assert Headings.Headings(lines, classify, 1) == [];
  }

  lemma GrownSection(n: nat, h: Text, head: Head, classify: Classifier, lines: seq<Text>, visible: Text,
                     sections: seq<Section>)
    requires PlainHeading(h) && lines == [['a' as int] + Blanks(2 * n), h] && visible == MaskHtmlComments(Join(lines))
    requires classify(h) == Some(head) && classify(lines[0]).None?
    requires SectionsOf(visible, classify, sections)
    ensures |sections| == 1 && sections[0].title == head.title
    ensures sections[0].start == 2 * n + 2 && sections[0].end == Some(2 * n + 2 + |h|)
  {
    GrownVisible(n, h, lines, visible);
    GrownHeadings(n, h, head, classify, lines);
    hide Split, Join, Headings.Headings, MaskHtmlComments;
    OneSection(n, h, head, classify, visible, sections);
  }

  lemma GrownVisible(n: nat, h: Text, lines: seq<Text>, visible: Text)
    requires PlainHeading(h) && lines == [['a' as int] + Blanks(2 * n), h] && visible == MaskHtmlComments(Join(lines))
    ensures Split(visible) == lines && |visible| == 2 * n + 2 + |h|
  {
    assert Join(lines) == lines[0] + [LF] + h;
    NoLessNoMask(Join(lines));
    SplitOfJoin(lines);
  }

  lemma OneSection(n: nat, h: Text, head: Head, classify: Classifier, visible: Text, sections: seq<Section>)
    requires |Split(visible)| == 2 && |visible| == 2 * n + 2 + |h| && SectionsOf(visible, classify, sections)
    requires Headings.Headings(Split(visible), classify, 2)
             == [Section(head.level, head.title, 2, 2 * n + 2, 2 * n + 2 + |h| + 1, None)]
    ensures |sections| == 1 && sections[0].title == head.title
    ensures sections[0].start == 2 * n + 2 && sections[0].end == Some(2 * n + 2 + |h|)
  {
    hide Split, Headings.Headings;
    var hs := [Section(head.level, head.title, 2, 2 * n + 2, 2 * n + 2 + |h| + 1, None)];
    assert NeverClosed(hs, 0);
  }

  // A letter and `n` backticks, then a dated heading: its first `n` units stay.
  lemma DatedHeadingShifts(n: nat, h: Text, head: Head, text: Text, visible: Text, classify: Classifier,
                           sections: seq<Section>, masked: Text)
    requires n > 0 && PlainHeading(h) && text == OpenEnded(n) + [LF] + h && Visible(text, visible)
    requires classify(h) == Some(head) && classify(['a' as int] + Blanks(2 * n)).None?
    requires SectionsOf(visible, classify, sections)
    requires SectionsBlank(MaskHtmlComments(text), Dated(sections, head.title), masked)
    ensures masked == if n < |h| then OpenEnded(n) + [LF] + h[..n] + Blanks(|h| - n) else text
  {
    hide Split, CodeMasked, MaskHtmlComments, SectionsOf, SectionsBlank, Join;
    var lines: seq<Text> :|
      lines != [] && CodeMasked(Split(text), lines) && visible == MaskHtmlComments(Join(lines));
    GrownLines(n, h, text, lines);
    GrownSection(n, h, head, classify, lines, visible, sections);
    NoLessNoMask(text);
    assert Dated(sections[1..], head.title) == [] && Dated(sections, head.title) == [sections[0]];
    BlankFrom(text, sections[0], masked);
    if n < |h| {
      assert text[..2 * n + 2] == OpenEnded(n) + [LF] + h[..n];
    }
  }

  lemma BlankFrom(base: Text, x: Section, masked: Text)
    requires SectionsBlank(base, [x], masked) && x.end.Some? && |base| <= x.end.value
    requires forall i: nat | x.start <= i < |base| :: base[i] != LF
    ensures masked == if x.start < |base| then base[..x.start] + Blanks(|base| - x.start) else base
  {
    forall i: nat | i < |base| ensures masked[i] == if x.start <= i then SPACE else base[i] {
      assert Covered([x], i) <==> Covers(x, i) by {
        assert x in [x];
      }
    }
  }

  // The repository's own heading, after a letter and as many backticks as the heading
  // is long: nothing is blanked. After a letter and one backtick only its mark stays.
  lemma DatedHeadingStays(n: nat, title: Text, text: Text, visible: Text, classify: Classifier,
                          sections: seq<Section>, masked: Text)
    requires n > 0 && text == OpenEnded(n) + [LF] + Ascii(DATED_HEADING) && Visible(text, visible)
    requires classify(Ascii(DATED_HEADING)) == Some(Head(1, title))
    requires classify(['a' as int] + Blanks(2 * n)).None? && SectionsOf(visible, classify, sections)
    requires SectionsBlank(MaskHtmlComments(text), Dated(sections, title), masked)
    ensures n >= 54 ==> masked == text
    ensures n == 1 ==> masked == OpenEnded(1) + [LF] + ['#' as int] + Blanks(53)
  {
    hide Visible, SectionsOf, SectionsBlank, MaskHtmlComments, Dated;
    var h := Ascii(DATED_HEADING);
    DatedHeadingIsPlain();
    hide PlainHeading;
    DatedHeadingShifts(n, h, Head(1, title), text, visible, classify, sections, masked);
    FirstUnit(h);
  }

  lemma FirstUnit(h: Text)
    requires PlainHeading(h)
    ensures h[..1] == ['#' as int]
  {
  }
}
