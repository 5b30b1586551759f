// What the masks over Markdown text do, line by line and comment by comment, without the
// sections, the spans and the searches that find it out.
module MarkdownLaws {
  import opened Options
  import opened TextOffsets
  import opened Lines
  import opened CodeSpans
  import opened CodeBlocks
  import opened Headings
  import opened MarkdownMasks

  // ----- dated sections

  // Line `a` is a dated heading, and no heading after it up to line `k` is as shallow.
  ghost predicate StillUnder(lines: seq<Text>, classify: Classifier, title: Text, a: nat, k: nat) {
    && a <= k < |lines| && classify(lines[a]).Some? && classify(lines[a]).value.title == title
    && forall b | a < b <= k && classify(lines[b]).Some? ::
         classify(lines[b]).value.level > classify(lines[a]).value.level
  }

  ghost predicate UnderDated(lines: seq<Text>, classify: Classifier, title: Text, k: nat) {
    exists a: nat :: StillUnder(lines, classify, title, a, k)
  }

  lemma OffsetOrder(lines: seq<Text>, j: nat, k: nat)
    requires j <= |lines| && k <= |lines|
    ensures Offset(lines, j) <= Offset(lines, k) <==> j <= k
  {
    if j < k {
      OffsetsGrow(lines, j, k);
    } else if k < j {
      OffsetsGrow(lines, k, j);
    }
  }

  // The headings of these lines: each at its line, in order, and none is missing.
  ghost predicate Listed(lines: seq<Text>, classify: Classifier, hs: seq<Section>) {
    && (forall i: nat | i < |hs| :: AtItsLine(lines, classify, hs[i], |lines|))
    && (forall i: nat, j: nat | i < |hs| && j < |hs| :: i < j <==> hs[i].line < hs[j].line)
    && forall b: nat | b < |lines| && classify(lines[b]).Some? :: exists m: nat :: HeadsLine(hs, m, b)
  }

  predicate HeadsLine(hs: seq<Section>, m: nat, b: nat) {
    m < |hs| && hs[m].line == b + 1
  }

  lemma HeadingsAreListed(lines: seq<Text>, classify: Classifier)
    ensures Listed(lines, classify, Headings.Headings(lines, classify, |lines|))
  {
    var hs := Headings.Headings(lines, classify, |lines|);
    HeadingsInOrder(lines, classify, |lines|);
    hide AtItsLine, Offset;
    forall b: nat | b < |lines| && classify(lines[b]).Some? ensures exists m: nat :: HeadsLine(hs, m, b) {
      EveryHeadingListed(lines, classify, |lines|, b);
      var m :| 0 <= m < |hs| && hs[m].line == b + 1;
      assert HeadsLine(hs, m, b);
    }
    hide Headings.Headings, HeadsLine;
    LinesGrow(hs);
  }

  lemma LinesGrow(hs: seq<Section>)
    requires forall i, j | 0 <= i < j < |hs| :: hs[i].line < hs[j].line
    ensures forall i: nat, j: nat | i < |hs| && j < |hs| :: i < j <==> hs[i].line < hs[j].line
  {
    forall i: nat, j: nat | i < |hs| && j < |hs| ensures i < j <==> hs[i].line < hs[j].line {
      assert i < j ==> hs[i].line < hs[j].line;
      assert j < i ==> hs[j].line < hs[i].line;
    }
  }

  lemma ListedAt(lines: seq<Text>, classify: Classifier, hs: seq<Section>, i: nat)
    requires Listed(lines, classify, hs) && i < |hs|
    ensures AtItsLine(lines, classify, hs[i], |lines|)
  {
  }

  lemma ListedInOrder(lines: seq<Text>, classify: Classifier, hs: seq<Section>, i: nat, j: nat)
    requires Listed(lines, classify, hs) && i < |hs| && j < |hs|
    ensures i < j <==> hs[i].line < hs[j].line
  {
  }

  lemma ListedFor(lines: seq<Text>, classify: Classifier, hs: seq<Section>, b: nat) returns (m: nat)
    requires Listed(lines, classify, hs) && b < |lines| && classify(lines[b]).Some?
    ensures HeadsLine(hs, m, b) && AtItsLine(lines, classify, hs[m], |lines|)
  {
    m :| HeadsLine(hs, m, b);
  }

  lemma CoveredIsUnder(lines: seq<Text>, classify: Classifier, hs: seq<Section>, title: Text, k: nat, n: nat,
                       end: nat, length: nat)
    requires Listed(lines, classify, hs) && k < |lines| && n < |hs| && hs[n].title == title
    requires hs[n].start <= Offset(lines, k) < end && EndsAt(hs, n, end, length)
    ensures UnderDated(lines, classify, title, k)
  {
    hide EndsAt, Listed, Offset;
    ListedAt(lines, classify, hs, n);
    var a := hs[n].line - 1;
    OffsetOrder(lines, a, k);
    forall b | a < b <= k && classify(lines[b]).Some?
      ensures classify(lines[b]).value.level > classify(lines[a]).value.level
    {
      LaterIsDeeper(lines, classify, hs, n, end, length, k, b);
    }
    assert StillUnder(lines, classify, title, a, k);
  }

  // A heading inside the section of another is deeper.
  lemma LaterIsDeeper(lines: seq<Text>, classify: Classifier, hs: seq<Section>, n: nat, end: nat, length: nat,
                      k: nat, b: nat)
    requires Listed(lines, classify, hs) && n < |hs| && EndsAt(hs, n, end, length)
    requires k < |lines| && Offset(lines, k) < end
    requires hs[n].line <= b <= k && classify(lines[b]).Some?
    ensures classify(lines[b]).value.level > hs[n].level
  {
    hide Offset, Listed, ClosedBy, NeverClosed, EndsAt;
    var m := ListedFor(lines, classify, hs, b);
    ListedInOrder(lines, classify, hs, n, m);
    var closed, j := HowItEnds(hs, n, end, length);
    if closed {
      ListedAt(lines, classify, hs, j);
      OffsetOrder(lines, hs[j].line - 1, k);
      ListedInOrder(lines, classify, hs, m, j);
      DeeperBetween(hs, n, j, m);
    } else {
      DeeperForEver(hs, n, m);
    }
  }

  lemma HowItEnds(hs: seq<Section>, n: nat, end: nat, length: nat) returns (closed: bool, j: nat)
    requires EndsAt(hs, n, end, length)
    ensures closed ==> n < j < |hs| && ClosedBy(hs, n, j) && hs[j].level <= hs[n].level && end == hs[j].start
    ensures !closed ==> NeverClosed(hs, n) && end == length
  {
    j := 0;
    closed := exists m: nat :: ClosedBy(hs, n, m) && end == hs[m].start;
    if closed {
      j :| ClosedBy(hs, n, j) && end == hs[j].start;
    }
  }

  lemma DeeperBetween(hs: seq<Section>, n: nat, j: nat, m: nat)
    requires ClosedBy(hs, n, j) && n < m < j
    ensures hs[m].level > hs[n].level
  {
  }

  lemma DeeperForEver(hs: seq<Section>, n: nat, m: nat)
    requires NeverClosed(hs, n) && n < m < |hs|
    ensures hs[m].level > hs[n].level
  {
  }

  // The heading that closes the section of a line's heading comes after the line.
  lemma NotBetween(lines: seq<Text>, classify: Classifier, hs: seq<Section>, title: Text, k: nat, a: nat,
                   n: nat, j: nat)
    requires StillUnder(lines, classify, title, a, k) && n < j < |hs| && hs[j].level <= hs[n].level
    requires AtItsLine(lines, classify, hs[n], |lines|) && AtItsLine(lines, classify, hs[j], |lines|)
    requires hs[n].line == a + 1 && hs[n].line < hs[j].line
    ensures k < hs[j].line - 1
  {
    var b := hs[j].line - 1;
    assert classify(lines[b]) == Some(Head(hs[j].level, hs[j].title));
  }

  lemma UnderIsCovered(lines: seq<Text>, classify: Classifier, hs: seq<Section>, title: Text, k: nat, a: nat,
                       length: nat) returns (n: nat)
    requires Listed(lines, classify, hs) && StillUnder(lines, classify, title, a, k)
    requires Offset(lines, k) < length
    ensures n < |hs| && hs[n].title == title && hs[n].start <= Offset(lines, k)
    ensures forall end | EndsAt(hs, n, end, length) :: Offset(lines, k) < end
  {
    hide Offset, Listed, ClosedBy, NeverClosed, EndsAt;
    n := ListedFor(lines, classify, hs, a);
    OffsetOrder(lines, a, k);
    forall end | EndsAt(hs, n, end, length) ensures Offset(lines, k) < end {
      var closed, j := HowItEnds(hs, n, end, length);
      if closed {
        ListedAt(lines, classify, hs, j);
        ListedInOrder(lines, classify, hs, n, j);
        NotBetween(lines, classify, hs, title, k, a, n, j);
        OffsetOrder(lines, hs[j].line - 1, k);
      }
    }
  }

  lemma SectionOf(text: Text, classify: Classifier, sections: seq<Section>, n: nat)
    requires SectionsOf(text, classify, sections) && n < |sections|
    ensures var hs := Headings.Headings(Split(text), classify, |Split(text)|);
      && |hs| == |sections| && sections[n].end.Some? && sections[n] == hs[n].(end := sections[n].end)
      && EndsAt(hs, n, sections[n].end.value, |text|)
  {
    hide Headings.Headings, Split, EndsAt;
  }

  lemma SameNumber(text: Text, classify: Classifier, sections: seq<Section>)
    requires SectionsOf(text, classify, sections)
    ensures |sections| == |Headings.Headings(Split(text), classify, |Split(text)|)|
  {
    hide Headings.Headings, Split, EndsAt;
  }

  lemma CoveredMeansUnder(text: Text, classify: Classifier, sections: seq<Section>, title: Text, k: nat)
    requires SectionsOf(text, classify, sections) && k < |Split(text)| && Split(text)[k] != []
    ensures LineCovered(Split(text), Dated(sections, title), k) <==> UnderDated(Split(text), classify, title, k)
  {
    hide SectionsOf, Split, StillUnder, Listed, Headings.Headings, EndsAt, Dated, Offset;
    var lines := Split(text);
    var hs := Headings.Headings(lines, classify, |lines|);
    HeadingsAreListed(lines, classify);
    JoinOfSplit(text);
    LineAtOffset(lines, k);
    SameNumber(text, classify, sections);
    if LineCovered(lines, Dated(sections, title), k) {
      var x :| x in Dated(sections, title) && Covers(x, Offset(lines, k));
      DatedAreSections(sections, title, x);
      var n: nat :| n < |sections| && sections[n] == x;
      SectionOf(text, classify, sections, n);
      CoveredIsUnder(lines, classify, hs, title, k, n, x.end.value, |text|);
    }
    if a: nat :| StillUnder(lines, classify, title, a, k) {
      var n := UnderIsCovered(lines, classify, hs, title, k, a, |text|);
      SectionOf(text, classify, sections, n);
      DatedAreSections(sections, title, sections[n]);
      assert Covers(sections[n], Offset(lines, k));
    }
  }

  // A line of the visible text goes exactly if a dated heading stands at it or before it,
  // with no heading as shallow between; all others stay as they are.
  lemma DatedLinesAre(text: Text, visible: Text, classify: Classifier, title: Text, masked: Text, k: nat)
    requires Visible(text, visible) && HistoricalMask(text, classify, title, masked) && k < |Split(visible)|
    ensures |Split(masked)| == |Split(visible)|
    ensures Split(masked)[k]
            == if UnderDated(Split(visible), classify, title, k) then Repeat(32, |Split(visible)[k]|)
               else Split(visible)[k]
  {
    hide Visible, SectionsOf, SectionsBlank, Split, UnderDated, LineCovered;
    var v, sections :| Visible(text, v) && SectionsOf(v, classify, sections)
                       && SectionsBlank(v, Dated(sections, title), masked);
    VisibleIsDetermined(text, v, visible);
    DatedLinesGo(text, visible, classify, sections, title, masked, k);
    var line := Split(visible)[k];
    assert Blanks(|line|) == Repeat(32, |line|);
    if line != [] {
      CoveredMeansUnder(visible, classify, sections, title, k);
    } else {
      assert Repeat(32, 0) == [];
    }
  }

  // ----- comments

  // `<!--` and `-->`.
  predicate OpensAt(text: Text, i: nat) {
    i + 4 <= |text| && text[i] == 60 && text[i + 1] == 33 && text[i + 2] == 45 && text[i + 3] == 45
  }

  predicate EndsAtPlace(text: Text, i: nat) {
    i + 3 <= |text| && text[i] == 45 && text[i + 1] == 45 && text[i + 2] == 62
  }

  // The comment that starts at `a` ends before `b`.
  predicate CommentAt(text: Text, a: nat, b: nat) {
    && OpensAt(text, a) && a + 7 <= b <= |text| && EndsAtPlace(text, b - 3)
    && forall e: nat | a + 4 <= e < b - 3 :: !EndsAtPlace(text, e)
  }

  // A way through the text: it passes over whole comments, and over single units where no
  // comment starts.
  ghost predicate Passes(text: Text, i: nat, comments: seq<Span>)
    decreases |comments|
  {
    if comments == [] then
      forall a: nat, b: nat | i <= a :: !CommentAt(text, a, b)
    else
      && i <= comments[0].start && CommentAt(text, comments[0].start, comments[0].end)
      && (forall a: nat, b: nat | i <= a < comments[0].start :: !CommentAt(text, a, b))
      && Passes(text, comments[0].end, comments[1..])
  }

  lemma OpeningsAgree(text: Text, i: nat)
    ensures At(text, i, COMMENT) <==> OpensAt(text, i)
    ensures At(text, i, COMMENT_END) <==> EndsAtPlace(text, i)
  {
    if i + 4 <= |text| {
      assert text[i..i + 4] == [text[i], text[i + 1], text[i + 2], text[i + 3]];
    }
    if i + 3 <= |text| {
      assert text[i..i + 3] == [text[i], text[i + 1], text[i + 2]];
    }
  }

  // A comment starts at `i` exactly if it is opened there and the search finds its end.
  lemma CommentIsFound(text: Text, a: nat, b: nat)
    ensures CommentAt(text, a, b) <==> OpensAt(text, a) && b >= 3 && Find(text, COMMENT_END, a + 4) == Some(b - 3)
  {
    forall e: nat ensures At(text, e, COMMENT_END) <==> EndsAtPlace(text, e) {
      OpeningsAgree(text, e);
    }
    hide At;
    assert |COMMENT_END| == 3;
    var found := Find(text, COMMENT_END, a + 4);
    if CommentAt(text, a, b) {
      assert EndsAtPlace(text, b - 3);
      assert found.Some? && found.value >= b - 3 && found.value <= b - 3;
    }
  }

  lemma FirstComment(text: Text, i: nat)
    requires At(text, i, COMMENT) && Find(text, COMMENT_END, i + |COMMENT|).Some?
    ensures var j := Find(text, COMMENT_END, i + |COMMENT|).value + |COMMENT_END|;
      i < |text| && i < j <= |text| && CommentAt(text, i, j) && Comments(text, i) == [Span(i, j)] + Comments(text, j)
  {
    var j := Find(text, COMMENT_END, i + |COMMENT|).value + |COMMENT_END|;
    OpeningsAgree(text, i);
    CommentIsFound(text, i, j);
  }

  lemma NoCommentHere(text: Text, i: nat)
    requires !(At(text, i, COMMENT) && Find(text, COMMENT_END, i + |COMMENT|).Some?)
    ensures forall b: nat :: !CommentAt(text, i, b)
    ensures i < |text| ==> Comments(text, i) == Comments(text, i + 1)
  {
    OpeningsAgree(text, i);
    forall b: nat ensures !CommentAt(text, i, b) {
      CommentIsFound(text, i, b);
    }
  }

  // The comments that the pass blanks are those on the only way through the text.
  lemma {:induction false} CommentsPass(text: Text, i: nat)
    ensures Passes(text, i, Comments(text, i))
    decreases |text| - i
  {
    hide CommentAt, Find, At, Comments;
    if At(text, i, COMMENT) && Find(text, COMMENT_END, i + |COMMENT|).Some? {
      var j := Find(text, COMMENT_END, i + |COMMENT|).value + |COMMENT_END|;
      FirstComment(text, i);
      assert Comments(text, i)[1..] == Comments(text, j);
      CommentsPass(text, j);
    } else {
      NoCommentHere(text, i);
      if i < |text| {
        CommentsPass(text, i + 1);
        PassLater(text, i, Comments(text, i + 1));
      } else {
        PastTheEnd(text, i);
        NoneLeft(text, i);
      }
    }
  }

  lemma NoneLeft(text: Text, i: nat)
    requires i >= |text|
    ensures Comments(text, i) == []
  {
  }

  lemma PassLater(text: Text, i: nat, comments: seq<Span>)
    requires Passes(text, i + 1, comments) && forall b: nat :: !CommentAt(text, i, b)
    ensures Passes(text, i, comments)
  {
    hide CommentAt;
  }

  lemma PastTheEnd(text: Text, i: nat)
    requires i >= |text|
    ensures forall a: nat, b: nat | i <= a :: !CommentAt(text, a, b)
  {
  }

  lemma {:induction false} OneWayThrough(text: Text, i: nat, xs: seq<Span>, ys: seq<Span>)
    requires Passes(text, i, xs) && Passes(text, i, ys)
    ensures xs == ys
    decreases |xs|
  {
    hide CommentAt;
    if xs != [] && ys != [] {
      OneEnd(text, xs[0].start, xs[0].end, ys[0].end);
      OneWayThrough(text, xs[0].end, xs[1..], ys[1..]);
      assert xs == [xs[0]] + xs[1..] && ys == [ys[0]] + ys[1..];
    }
  }

  lemma OneEnd(text: Text, a: nat, b: nat, c: nat)
    ensures CommentAt(text, a, b) && CommentAt(text, a, c) ==> b == c
  {
  }

  // Blank are exactly the units inside these comments that are no line feeds.
  lemma CommentsAreBlank(text: Text, comments: seq<Span>)
    requires Passes(text, 0, comments)
    ensures |MaskHtmlComments(text)| == |text|
    ensures forall i | 0 <= i < |text| ::
              MaskHtmlComments(text)[i]
              == if text[i] != 10 && exists c :: c in comments && c.start <= i < c.end then 32 else text[i]
  {
    CommentsPass(text, 0);
    OneWayThrough(text, 0, comments, Comments(text, 0));
    forall i | 0 <= i < |text| ensures InSpan(comments, i) <==> exists c :: c in comments && c.start <= i < c.end {
      if InSpan(comments, i) {
        var c :| c in comments && Within(c, i);
      }
      if c :| c in comments && c.start <= i < c.end {
        assert Within(c, i);
      }
    }
  }
}
