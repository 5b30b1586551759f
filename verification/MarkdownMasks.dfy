// Masks over Markdown text: fenced and inline code, HTML comments, dated sections.
module MarkdownMasks {
  import opened Options
  import opened TextOffsets
  import opened Lines
  import opened CodeSpans
  import opened CodeBlocks
  import opened Headings

  const TILDE: Unit := '~' as int
  const TAB: Unit := '\t' as int

  // ----- fenced blocks

  datatype Fence = Fence(character: Unit, length: nat)

  // Where the run of `u` that starts at `c` ends.
  function RunOf(line: Text, u: Unit, c: nat): (e: nat)
    requires c <= |line|
    ensures c <= e <= |line|
    decreases |line| - c
  {
    if c < |line| && line[c] == u then RunOf(line, u, c + 1) else c
  }

  // The units that a dot of a pattern does not match.
  predicate EndsLine(u: Unit) {
    u == LF || u == '\r' as int || u == 0x2028 || u == 0x2029
  }

  // An opening fence: at most three spaces, three or more backticks or tildes, and then
  // no backtick if the fence is made of them.
  function FenceOpened(line: Text): Option<Fence> {
    var at := RunOf(line, SPACE, 0);
    if at > 3 || at == |line| || !(line[at] == TICK || line[at] == TILDE) then None
    else
      var e := RunOf(line, line[at], at);
      if e - at < 3 || (exists i | e <= i < |line| :: EndsLine(line[i]) || (line[at] == TICK && line[i] == TICK))
      then None
      else Some(Fence(line[at], e - at))
  }

  predicate ClosesFence(line: Text, fence: Fence) {
    var at := RunOf(line, SPACE, 0);
    var e := RunOf(line, fence.character, at);
    at <= 3 && e - at >= fence.length && forall i | e <= i < |line| :: line[i] == SPACE || line[i] == TAB
  }

  // The fence that is open before line `k`.
  function FenceBefore(lines: seq<Text>, k: nat): Option<Fence>
    requires k <= |lines|
  {
    if k == 0 then None
    else
      match FenceBefore(lines, k - 1)
      case Some(fence) => if ClosesFence(lines[k - 1], fence) then None else Some(fence)
      case None => FenceOpened(lines[k - 1])
  }

  predicate Fenced(lines: seq<Text>, k: nat)
    requires k < |lines|
  {
    FenceBefore(lines, k).Some? || FenceOpened(lines[k]).Some?
  }

  ghost predicate LineMasked(lines: seq<Text>, k: nat, masked: Text)
    requires k < |lines|
  {
    if Fenced(lines, k) then masked == Blanks(|lines[k]|) else MaskOf(lines[k], masked)
  }

  ghost predicate CodeMasked(lines: seq<Text>, masked: seq<Text>) {
    |masked| == |lines| && forall k: nat | k < |lines| :: LineMasked(lines, k, masked[k])
  }

  // ----- the fences are the blocks

  lemma {:induction false} RunIs(line: Text, u: Unit, c: nat, e: nat)
    requires c <= e <= |line| && (forall i | c <= i < e :: line[i] == u) && (e < |line| ==> line[e] != u)
    ensures RunOf(line, u, c) == e
    decreases e - c
  {
    if c < e {
      RunIs(line, u, c + 1, e);
    }
  }

  lemma {:induction false} RunHas(line: Text, u: Unit, c: nat)
    requires c <= |line|
    ensures forall i | c <= i < RunOf(line, u, c) :: line[i] == u
    ensures RunOf(line, u, c) < |line| ==> line[RunOf(line, u, c)] != u
    decreases |line| - c
  {
    if c < |line| && line[c] == u {
      RunHas(line, u, c + 1);
    }
  }

  lemma RunsRead(line: Text, u: Unit, at: nat, e: nat)
    requires at == RunOf(line, 32, 0) && e == RunOf(line, u, at)
    ensures Reads(line, at, u, e - at, line[e..]) && (e < |line| ==> line[e] != u)
  {
    RunHas(line, 32, 0);
    RunHas(line, u, at);
  }

  lemma ReadsRun(line: Text, at: nat, u: Unit, n: nat, rest: Text)
    requires Reads(line, at, u, n, rest) && u != 32 && n > 0 && (rest != [] ==> rest[0] != u)
    ensures RunOf(line, 32, 0) == at && RunOf(line, u, at) == at + n && line[at + n..] == rest
  {
    UnitsOfReading(line, at, u, n, rest);
    RunIs(line, 32, 0, at);
    RunIs(line, u, at, at + n);
  }

  lemma OpenedIsOpening(line: Text, u: Unit, n: nat)
    ensures FenceOpened(line) == Some(Fence(u, n)) <==> OpensBlock(line, u, n)
  {
    if FenceOpened(line) == Some(Fence(u, n)) {
      var at := RunOf(line, 32, 0);
      RunsRead(line, u, at, at + n);
      assert Reads(line, at, u, n, line[at + n..]) && MayFollow(u, line[at + n..]);
    }
    if OpensBlock(line, u, n) {
      var at: nat, rest :| at <= 3 && Reads(line, at, u, n, rest) && MayFollow(u, rest);
      ReadsRun(line, at, u, n, rest);
      UnitsOfReading(line, at, u, n, rest);
      assert forall i | at + n <= i < |line| :: line[i] == rest[i - at - n];
    }
  }

  lemma ClosesIsEnding(line: Text, u: Unit, n: nat)
    requires (u == 96 || u == 126) && n >= 3
    ensures ClosesFence(line, Fence(u, n)) <==> EndsBlock(line, u, n)
  {
    if ClosesFence(line, Fence(u, n)) {
      var at := RunOf(line, 32, 0);
      var e := RunOf(line, u, at);
      RunsRead(line, u, at, e);
      assert Reads(line, at, u, e - at, line[e..]) && OnlyBlanks(line[e..]);
    }
    if EndsBlock(line, u, n) {
      var at: nat, m: nat, rest :| at <= 3 && n <= m && Reads(line, at, u, m, rest) && OnlyBlanks(rest);
      ReadsRun(line, at, u, m, rest);
      UnitsOfReading(line, at, u, m, rest);
      assert forall i | at + m <= i < |line| :: line[i] == rest[i - at - m];
    }
  }

  // Where no fence is open, the lines after stand alone.
  lemma {:induction false} FencesAfter(lines: seq<Text>, e: nat, j: nat)
    requires e + j <= |lines| && FenceBefore(lines, e) == None
    ensures FenceBefore(lines, e + j) == FenceBefore(lines[e..], j)
  {
    hide ClosesFence, FenceOpened;
    if j > 0 {
      FencesAfter(lines, e, j - 1);
      assert lines[e..][j - 1] == lines[e + j - 1];
    }
  }

  lemma MaskedAfter(lines: seq<Text>, masked: seq<Text>, e: nat)
    requires e <= |lines| == |masked| && FenceBefore(lines, e) == None
    ensures CodeMasked(lines, masked)
      <==> (forall k: nat | k < e :: LineMasked(lines, k, masked[k])) && CodeMasked(lines[e..], masked[e..])
  {
    forall j: nat | j < |lines| - e
      ensures LineMasked(lines, e + j, masked[e + j]) <==> LineMasked(lines[e..], j, masked[e..][j])
    {
      FencesAfter(lines, e, j);
      hide MaskOf, FenceOpened, FenceBefore;
    }
    hide LineMasked;
    if CodeMasked(lines, masked) {
      forall j: nat | j < |lines| - e ensures LineMasked(lines[e..], j, masked[e..][j]) {
        assert LineMasked(lines, e + j, masked[e + j]);
      }
    }
    if (forall k: nat | k < e :: LineMasked(lines, k, masked[k])) && CodeMasked(lines[e..], masked[e..]) {
      forall k: nat | k < |lines| ensures LineMasked(lines, k, masked[k]) {
        if k >= e {
          assert LineMasked(lines[e..], k - e, masked[e..][k - e]);
        }
      }
    }
  }

  // Within a block the fence stays open up to the line that ends it.
  lemma {:induction false} FenceStaysOpen(lines: seq<Text>, u: Unit, n: nat, k: nat)
    requires lines != [] && FenceOpened(lines[0]) == Some(Fence(u, n)) && 1 <= k <= |lines|
    requires forall j | 1 <= j < k :: !ClosesFence(lines[j], Fence(u, n))
    ensures FenceBefore(lines, k) == Some(Fence(u, n))
  {
    hide ClosesFence, FenceOpened;
    if k > 1 {
      FenceStaysOpen(lines, u, n, k - 1);
    } else {
      assert FenceBefore(lines, 0) == None;
    }
  }

  lemma BlockIsBlank(lines: seq<Text>, masked: seq<Text>, u: Unit, n: nat, e: nat)
    requires lines != [] && FenceOpened(lines[0]) == Some(Fence(u, n)) && e <= |lines| == |masked|
    requires forall j | 1 <= j < e - 1 :: !ClosesFence(lines[j], Fence(u, n))
    ensures (forall k: nat | k < e :: LineMasked(lines, k, masked[k])) <==> BlankTo(lines, masked, e)
  {
    forall k: nat | k < e ensures Fenced(lines, k) {
      if k > 0 {
        FenceStaysOpen(lines, u, n, k);
      }
    }
    assert forall k: nat | k < e :: Blanks(|lines[k]|) == Repeat(32, |lines[k]|);
    hide Fenced, MaskOf, Repeat, Blanks, ClosesFence, FenceOpened;
  }

  lemma BlockEnds(lines: seq<Text>, u: Unit, n: nat)
    requires lines != [] && OpensBlock(lines[0], u, n)
    ensures FenceOpened(lines[0]) == Some(Fence(u, n))
    ensures forall j | 1 <= j < |lines| :: ClosesFence(lines[j], Fence(u, n)) <==> EndsBlock(lines[j], u, n)
  {
    OpenedIsOpening(lines[0], u, n);
    forall j | 1 <= j < |lines| ensures ClosesFence(lines[j], Fence(u, n)) <==> EndsBlock(lines[j], u, n) {
      ClosesIsEnding(lines[j], u, n);
    }
  }

  lemma EndedBlock(lines: seq<Text>, masked: seq<Text>, u: Unit, n: nat, e: nat)
    requires lines != [] && |masked| == |lines| && OpensBlock(lines[0], u, n) && BlockEndsAt(lines, u, n, e)
    ensures CodeMasked(lines, masked) <==> BlankTo(lines, masked, e + 1) && CodeMasked(lines[e + 1..], masked[e + 1..])
  {
    BlockEnds(lines, u, n);
    hide OpensBlock, EndsBlock, ClosesFence, FenceOpened, LineMasked, CodeMasked, BlankTo;
    FenceStaysOpen(lines, u, n, e);
    BlockIsBlank(lines, masked, u, n, e + 1);
    assert FenceBefore(lines, e + 1) == None;
    MaskedAfter(lines, masked, e + 1);
  }

  lemma UnendedBlock(lines: seq<Text>, masked: seq<Text>, u: Unit, n: nat)
    requires lines != [] && |masked| == |lines| && OpensBlock(lines[0], u, n) && BlockNeverEnds(lines, u, n)
    ensures CodeMasked(lines, masked) <==> BlankTo(lines, masked, |lines|)
  {
    BlockEnds(lines, u, n);
    hide OpensBlock, EndsBlock, ClosesFence, FenceOpened, LineMasked, BlankTo;
    BlockIsBlank(lines, masked, u, n, |lines|);
  }

  lemma OpenLine(lines: seq<Text>, masked: seq<Text>)
    requires lines != [] && |masked| == |lines| && !OpensAny(lines[0])
    ensures CodeMasked(lines, masked) <==> MaskOf(lines[0], masked[0]) && CodeMasked(lines[1..], masked[1..])
  {
    if FenceOpened(lines[0]).Some? {
      OpenedIsOpening(lines[0], FenceOpened(lines[0]).value.character, FenceOpened(lines[0]).value.length);
    }
    assert FenceBefore(lines, 0) == None && FenceBefore(lines, 1) == None;
    MaskedAfter(lines, masked, 1);
    assert LineMasked(lines, 0, masked[0]) <==> MaskOf(lines[0], masked[0]);
    hide LineMasked, CodeMasked, MaskOf;
  }

  lemma FirstEnd(lines: seq<Text>, u: Unit, n: nat) returns (e: nat)
    ensures BlockEndsAt(lines, u, n, e) || BlockNeverEnds(lines, u, n)
  {
    hide EndsBlock;
    e := 1;
    while e < |lines| && !EndsBlock(lines[e], u, n)
      invariant 1 <= e && forall j | 1 <= j < e && j < |lines| :: !EndsBlock(lines[j], u, n)
      decreases |lines| - e
    {
      e := e + 1;
    }
  }

  // The line-by-line pass masks block by block.
  lemma {:induction false} CodeIsBlocks(lines: seq<Text>, masked: seq<Text>)
    ensures CodeMasked(lines, masked) <==> BlocksMasked(lines, masked)
    decreases |lines|
  {
    if lines != [] && |masked| == |lines| {
      hide OpensBlock, EndsBlock, CodeMasked, BlankTo, MaskOf, BlocksMasked;
      if OpensAny(lines[0]) {
        var u, n :| OpensBlock(lines[0], u, n);
        var e := FirstEnd(lines, u, n);
        if BlockEndsAt(lines, u, n, e) {
          EndedBlock(lines, masked, u, n, e);
          EndedStep(lines, masked, u, n, e);
          CodeIsBlocks(lines[e + 1..], masked[e + 1..]);
        } else {
          UnendedBlock(lines, masked, u, n);
          UnendedStep(lines, masked, u, n);
        }
      } else {
        OpenLine(lines, masked);
        CodeBlocks.OtherStep(lines, masked);
        CodeIsBlocks(lines[1..], masked[1..]);
      }
    }
  }

  method MaskMarkdownCode(text: Text) returns (masked: seq<Text>)
    ensures CodeMasked(Split(text), masked) && BlocksMasked(Split(text), masked)
  {
    hide BlocksMasked, MaskOf, ClosesFence, FenceOpened, Split;
    var lines := Split(text);
    masked := [];
    var fence: Option<Fence> := None;
    for k := 0 to |lines|
      invariant fence == FenceBefore(lines, k)
      invariant |masked| == k && forall j: nat | j < k :: LineMasked(lines, j, masked[j])
    {
      var line := lines[k];
      if fence.Some? {
        if ClosesFence(line, fence.value) {
          fence := None;
        }
        masked := masked + [Blanks(|line|)];
        continue;
      }
      var opener := FenceOpened(line);
      if opener.Some? {
        fence := opener;
        masked := masked + [Blanks(|line|)];
        continue;
      }
      var chars := MaskLine(line);
      masked := masked + [chars];
    }
    CodeIsBlocks(lines, masked);
  }

  // Line `k` grows: it is outside fences and an unclosed run dangles.
  predicate Grows(lines: seq<Text>, k: nat)
    requires k < |lines|
  {
    !Fenced(lines, k) && !KeepsLength(lines[k])
  }

  // Line by line the mask blanks or keeps each unit, and no line end is added; a line
  // keeps its length exactly when it does not grow.
  lemma CodeMaskIsPointwise(lines: seq<Text>, masked: seq<Text>, k: nat)
    requires CodeMasked(lines, masked) && k < |lines|
    ensures |masked[k]| >= |lines[k]| && (|masked[k]| == |lines[k]| <==> !Grows(lines, k))
    ensures forall i: nat | i < |masked[k]| :: masked[k][i] == SPACE || (i < |lines[k]| && masked[k][i] == lines[k][i])
    ensures LF !in lines[k] ==> LF !in masked[k]
  {
    hide MaskOf, KeepsLength, FenceBefore, FenceOpened;
    assert LineMasked(lines, k, masked[k]);
    if !Fenced(lines, k) {
      MaskIsPointwise(lines[k], masked[k]);
    }
  }

  // The lines stand where they stood exactly as long as no line before them grows.
  lemma {:induction false} OffsetsKeptUntilGrowth(lines: seq<Text>, masked: seq<Text>, k: nat)
    requires CodeMasked(lines, masked) && k <= |lines|
    ensures Offset(masked, k) >= Offset(lines, k)
    ensures Offset(masked, k) == Offset(lines, k) <==> forall j: nat | j < k :: !Grows(lines, j)
  {
    hide CodeMasked, Grows;
    if k > 0 {
      OffsetsKeptUntilGrowth(lines, masked, k - 1);
      SameCount(lines, masked);
      CodeMaskIsPointwise(lines, masked, k - 1);
    }
  }

  lemma SameCount(lines: seq<Text>, masked: seq<Text>)
    requires CodeMasked(lines, masked)
    ensures |masked| == |lines|
  {
  }

  // ----- HTML comments

  const COMMENT: Text := ['<' as int, '!' as int, '-' as int, '-' as int]
  const COMMENT_END: Text := ['-' as int, '-' as int, '>' as int]

  predicate At(text: Text, i: nat, w: Text) {
    i + |w| <= |text| && text[i..i + |w|] == w
  }

  function Find(text: Text, w: Text, from: nat): (k: Option<nat>)
    ensures k.Some? ==>
              from <= k.value && At(text, k.value, w) && forall j: nat | from <= j < k.value :: !At(text, j, w)
    ensures k.None? ==> forall j: nat | from <= j :: !At(text, j, w)
    decreases |text| - from
  {
    if from + |w| > |text| then None
    else if At(text, from, w) then Some(from)
    else if from == |text| then None
    else Find(text, w, from + 1)
  }

  // The comments from `i` on: at each place the shortest match, if there is one.
  function Comments(text: Text, i: nat): seq<Span>
    decreases |text| - i
  {
    if i >= |text| then []
    else if At(text, i, COMMENT) && Find(text, COMMENT_END, i + |COMMENT|).Some? then
      var j := Find(text, COMMENT_END, i + |COMMENT|).value + |COMMENT_END|;
      [Span(i, j)] + Comments(text, j)
    else Comments(text, i + 1)
  }

  // Blanks everything but line ends in the spans.
  function BlankIn(text: Text, spans: seq<Span>): (masked: Text)
    ensures SameShape(text, masked)
    ensures forall i | 0 <= i < |text| :: masked[i] == if InSpan(spans, i) && text[i] != LF then SPACE else text[i]
  {
    seq(|text|, i requires 0 <= i < |text| => if InSpan(spans, i) && text[i] != LF then SPACE else text[i])
  }

  function MaskHtmlComments(text: Text): Text {
    BlankIn(text, Comments(text, 0))
  }

  // A comment runs from its opening to the first ending after it.
  predicate IsComment(text: Text, s: Span) {
    At(text, s.start, COMMENT) && s.end >= |COMMENT_END|
    && Find(text, COMMENT_END, s.start + |COMMENT|) == Some(s.end - |COMMENT_END|)
  }

  lemma {:induction false} CommentsAreComments(text: Text, i: nat, s: Span)
    requires s in Comments(text, i)
    ensures i <= s.start && IsComment(text, s)
    decreases |text| - i
  {
    hide At, Find;
    if At(text, i, COMMENT) && Find(text, COMMENT_END, i + |COMMENT|).Some? {
      var j := Find(text, COMMENT_END, i + |COMMENT|).value + |COMMENT_END|;
      if s != Span(i, j) {
        CommentsAreComments(text, j, s);
      }
    } else {
      CommentsAreComments(text, i + 1, s);
    }
  }

  // What opens a comment and is not blanked has no ending after it.
  lemma {:induction false} NoCommentIsMissed(text: Text, i: nat, k: nat, e: nat)
    requires i <= k && At(text, k, COMMENT) && k + |COMMENT| <= e && At(text, e, COMMENT_END)
    ensures InSpan(Comments(text, i), k)
    decreases |text| - i
  {
    hide InSpan;
    if At(text, i, COMMENT) && Find(text, COMMENT_END, i + |COMMENT|).Some? {
      var j := Find(text, COMMENT_END, i + |COMMENT|).value + |COMMENT_END|;
      StillInSpan(Span(i, j), Comments(text, j), k);
      if k >= j {
        NoCommentIsMissed(text, j, k, e);
      }
    } else {
      assert i != k;
      NoCommentIsMissed(text, i + 1, k, e);
    }
  }

  // ----- the visible text

  ghost predicate Visible(text: Text, visible: Text) {
    exists masked: seq<Text> ::
      masked != [] && CodeMasked(Split(text), masked) && visible == MaskHtmlComments(Join(masked))
  }

  method VisibleMarkdown(text: Text) returns (visible: Text)
    ensures Visible(text, visible)
  {
    hide MaskHtmlComments;
    var masked := MaskMarkdownCode(text);
    visible := MaskHtmlComments(Join(masked));
  }

  // The visible text has the lines of the text, each with the length that the code mask
  // gave it.
  lemma VisibleLines(text: Text, visible: Text, masked: seq<Text>)
    requires masked != [] && CodeMasked(Split(text), masked) && visible == MaskHtmlComments(Join(masked))
    ensures |Split(visible)| == |Split(text)| == |masked|
    ensures forall k | 0 <= k < |masked| :: |Split(visible)[k]| == |masked[k]|
  {
    hide CodeMasked, Split, Join;
    JoinOfSplit(text);
    SameCount(Split(text), masked);
    forall k | 0 <= k < |masked| ensures LF !in masked[k] {
      CodeMaskIsPointwise(Split(text), masked, k);
    }
    SplitOfJoin(masked);
    SameShapeSameLines(Join(masked), visible);
  }

  // ----- dated sections

  // String slicing: places past the end are the end.
  function Slice(text: Text, from: nat, to: nat): Text {
    if from >= |text| || to <= from then []
    else if to >= |text| then text[from..]
    else text[from..to]
  }

  // The sections with the dated title.
  function Dated(sections: seq<Section>, title: Text): seq<Section> {
    if sections == [] then []
    else (if sections[0].title == title then [sections[0]] else []) + Dated(sections[1..], title)
  }

  predicate Bounded(x: Section) {
    x.end.Some? && x.start <= x.end.value
  }

  predicate Covers(x: Section, i: nat) {
    x.end.Some? && x.start <= i < x.end.value
  }

  predicate Covered(sections: seq<Section>, i: nat) {
    exists x | x in sections :: Covers(x, i)
  }

  // `masked` is `base` with all units but line ends blank in the sections.
  ghost predicate SectionsBlank(base: Text, sections: seq<Section>, masked: Text) {
    && SameShape(base, masked)
    && forall i: nat | i < |base| :: masked[i] == if Covered(sections, i) && base[i] != LF then SPACE else base[i]
  }

  // Blanks the sections one after the other, the last first. They may be nested.
  method BlankSections(base: Text, sections: seq<Section>) returns (masked: Text)
    requires forall x | x in sections :: Bounded(x)
    ensures SectionsBlank(base, sections, masked)
  {
    hide SectionsBlank;
    masked := base;
    var n := |sections|;
    NothingBlank(base);
    assert sections[n..] == [];
    while n > 0
      invariant 0 <= n <= |sections|
      invariant SectionsBlank(base, sections[n..], masked)
    {
      n := n - 1;
      var x := sections[n];
      assert x in sections;
      var inside := Slice(masked, x.start, x.end.value);
      assert sections[n..] == [x] + sections[n + 1..];
      BlankOne(base, x, sections[n + 1..], masked);
      masked := Slice(masked, 0, x.start) + BlankIn(inside, [Span(0, |inside|)]) + Slice(masked, x.end.value, |masked|);
    }
    assert sections[0..] == sections;
  }

  lemma NothingBlank(base: Text)
    ensures SectionsBlank(base, [], base)
  {
  }

  lemma BlankOne(base: Text, x: Section, later: seq<Section>, masked: Text)
    requires Bounded(x) && SectionsBlank(base, later, masked)
    ensures var inside := Slice(masked, x.start, x.end.value);
            SectionsBlank(base, [x] + later,
              Slice(masked, 0, x.start) + BlankIn(inside, [Span(0, |inside|)]) + Slice(masked, x.end.value, |masked|))
  {
    var inside := Slice(masked, x.start, x.end.value);
    var now := Slice(masked, 0, x.start) + BlankIn(inside, [Span(0, |inside|)]) + Slice(masked, x.end.value, |masked|);
    OneRange(masked, x, now);
    forall i: nat ensures Covered([x] + later, i) <==> Covers(x, i) || Covered(later, i) {
      assert forall y :: y in [x] + later <==> y == x || y in later;
    }
  }

  lemma OneRange(masked: Text, x: Section, now: Text)
    requires Bounded(x)
    requires var inside := Slice(masked, x.start, x.end.value);
             now == Slice(masked, 0, x.start) + BlankIn(inside, [Span(0, |inside|)])
                 + Slice(masked, x.end.value, |masked|)
    ensures |now| == |masked|
    ensures forall i: nat | i < |masked| :: now[i] == if Covers(x, i) && masked[i] != LF then SPACE else masked[i]
  {
    var before, inside := Slice(masked, 0, x.start), Slice(masked, x.start, x.end.value);
    var after := Slice(masked, x.end.value, |masked|);
    var blank := BlankIn(inside, [Span(0, |inside|)]);
    forall i: nat | i < |inside| ensures InSpan([Span(0, |inside|)], i) {
      assert Within(Span(0, |inside|), i);
    }
    forall i: nat | i < |masked| ensures now[i] == if Covers(x, i) && masked[i] != LF then SPACE else masked[i] {
      if i < x.start {
        assert now[i] == before[i];
      } else if i < x.end.value {
        assert now[i] == blank[i - x.start] && inside[i - x.start] == masked[i];
      } else {
        assert now[i] == after[i - x.end.value];
      }
    }
  }

  // The visible text with its dated sections blank.
  ghost predicate HistoricalMask(text: Text, classify: Classifier, title: Text, masked: Text) {
    exists visible, sections :: Visible(text, visible) && SectionsOf(visible, classify, sections)
                                && SectionsBlank(visible, Dated(sections, title), masked)
  }

  method MaskExactHistorical(text: Text, classify: Classifier, title: Text) returns (masked: Text)
    ensures HistoricalMask(text, classify, title, masked)
  {
    hide Visible, SectionsOf, SectionsBlank;
    var visible := VisibleMarkdown(text);
    var sections := HeadingSections(visible, classify);
    DatedAreBounded(visible, classify, sections, title);
    masked := BlankSections(visible, Dated(sections, title));
  }

  // The text with its comments masked, blank where the dated sections of the visible
  // text are.
  ghost predicate HistoricalMaskKeepFences(text: Text, classify: Classifier, title: Text, masked: Text) {
    exists visible, sections :: Visible(text, visible) && SectionsOf(visible, classify, sections)
                                && SectionsBlank(MaskHtmlComments(text), Dated(sections, title), masked)
  }

  method MaskExactHistoricalKeepFences(text: Text, classify: Classifier, title: Text) returns (masked: Text)
    ensures HistoricalMaskKeepFences(text, classify, title, masked)
  {
    hide Visible, SectionsOf, SectionsBlank, MaskHtmlComments;
    var structural := VisibleMarkdown(text);
    var sections := HeadingSections(structural, classify);
    DatedAreBounded(structural, classify, sections, title);
    masked := BlankSections(MaskHtmlComments(text), Dated(sections, title));
  }

  // The visible text, the sections and the masks are determined by the text.
  lemma VisibleIsDetermined(text: Text, v: Text, w: Text)
    requires Visible(text, v) && Visible(text, w)
    ensures v == w
  {
    hide MaskHtmlComments, CodeMasked, Join;
    var a: seq<Text> :| a != [] && CodeMasked(Split(text), a) && v == MaskHtmlComments(Join(a));
    var b: seq<Text> :| b != [] && CodeMasked(Split(text), b) && w == MaskHtmlComments(Join(b));
    CodeMaskIsDetermined(Split(text), a, b);
  }

  lemma CodeMaskIsDetermined(lines: seq<Text>, a: seq<Text>, b: seq<Text>)
    requires CodeMasked(lines, a) && CodeMasked(lines, b)
    ensures a == b
  {
    hide MaskOf, Fenced;
    forall k: nat | k < |lines| ensures a[k] == b[k] {
      assert LineMasked(lines, k, a[k]) && LineMasked(lines, k, b[k]);
      if !Fenced(lines, k) {
        LineMaskIsDetermined(lines[k], a[k], b[k]);
      }
    }
  }

  lemma LineMaskIsDetermined(line: Text, a: Text, b: Text)
    requires MaskOf(line, a) && MaskOf(line, b)
    ensures a == b
  {
    hide Spans, Unclosed, Dangling, InSpan;
  }

  lemma SectionsAreDetermined(text: Text, classify: Classifier, a: seq<Section>, b: seq<Section>)
    requires SectionsOf(text, classify, a) && SectionsOf(text, classify, b)
    ensures a == b
  {
    hide EndsAt;
    var hs := Headings.Headings(Split(text), classify, |Split(text)|);
    forall i: nat | i < |hs| ensures a[i] == b[i] {
      EndIsDetermined(hs, i, |text|, a[i].end.value, b[i].end.value);
    }
  }

  lemma HistoricalMaskIsDetermined(text: Text, classify: Classifier, title: Text, a: Text, b: Text)
    requires HistoricalMask(text, classify, title, a) && HistoricalMask(text, classify, title, b)
    ensures a == b
  {
    hide Visible, SectionsOf, Dated, Covered;
    var v, s :| Visible(text, v) && SectionsOf(v, classify, s) && SectionsBlank(v, Dated(s, title), a);
    var w, t :| Visible(text, w) && SectionsOf(w, classify, t) && SectionsBlank(w, Dated(t, title), b);
    VisibleIsDetermined(text, v, w);
    SectionsAreDetermined(v, classify, s, t);
  }

  lemma {:induction false} DatedAreSections(sections: seq<Section>, title: Text, x: Section)
    ensures x in Dated(sections, title) <==> x in sections && x.title == title
  {
    if sections != [] {
      DatedAreSections(sections[1..], title, x);
      assert sections == [sections[0]] + sections[1..];
    }
  }

  lemma DatedAreBounded(text: Text, classify: Classifier, sections: seq<Section>, title: Text)
    requires SectionsOf(text, classify, sections)
    ensures forall x | x in Dated(sections, title) :: Bounded(x)
  {
    var hs := Headings.Headings(Split(text), classify, |Split(text)|);
    forall x | x in Dated(sections, title) ensures Bounded(x) {
      DatedAreSections(sections, title, x);
      var i :| 0 <= i < |sections| && sections[i] == x;
      EndIsInside(text, classify, hs, i, x.end.value);
    }
  }

  // ----- whole lines

  // Line `k` of the text belongs to one of the sections.
  ghost predicate LineCovered(lines: seq<Text>, sections: seq<Section>, k: nat)
    requires k < |lines|
  {
    Covered(sections, Offset(lines, k))
  }

  lemma PlaceInLine(lines: seq<Text>, j: nat, k: nat, i: nat)
    requires j <= |lines| && k < |lines| && i < |lines[k]|
    ensures Offset(lines, j) <= Offset(lines, k) + i <==> Offset(lines, j) <= Offset(lines, k)
  {
    if k < j {
      OffsetsGrow(lines, k, j);
    } else if j < k {
      OffsetsGrow(lines, j, k);
    }
  }

  // Where a section starts and ends: at line starts, or at the end of the text.
  lemma SectionsHoldLines(text: Text, classify: Classifier, sections: seq<Section>, x: Section, k: nat, i: nat)
    requires SectionsOf(text, classify, sections) && x in sections && k < |Split(text)| && i < |Split(text)[k]|
    ensures Covers(x, Offset(Split(text), k) + i) <==> Covers(x, Offset(Split(text), k))
  {
    hide Split, Headings.Headings, ClosedBy, NeverClosed;
    var lines := Split(text);
    var hs := Headings.Headings(lines, classify, |lines|);
    HeadingsInOrder(lines, classify, |lines|);
    var n: nat :| n < |sections| && sections[n] == x;
    PlaceInLine(lines, hs[n].line - 1, k, i);
    EndOnLine(text, classify, hs, n, x.end.value, k, i);
  }

  lemma EndOnLine(text: Text, classify: Classifier, hs: seq<Section>, n: nat, e: nat, k: nat, i: nat)
    requires hs == Headings.Headings(Split(text), classify, |Split(text)|) && EndsAt(hs, n, e, |text|)
    requires k < |Split(text)| && i < |Split(text)[k]|
    ensures Offset(Split(text), k) + i < e <==> Offset(Split(text), k) < e
  {
    hide Split, Headings.Headings, NeverClosed;
    var lines := Split(text);
    if m: nat :| ClosedBy(hs, n, m) && e == hs[m].start {
      HeadingsInOrder(lines, classify, |lines|);
      PlaceInLine(lines, hs[m].line - 1, k, i);
    } else {
      JoinOfSplit(text);
      LineAtOffset(lines, k);
    }
  }

  // Blanking sections of `text` in `base`, whose lines stand at the same places, blanks
  // whole lines: those that start in a section, and no others.
  lemma LinesBlankWhole(text: Text, classify: Classifier, sections: seq<Section>, title: Text, base: Text,
                        masked: Text, k: nat)
    requires SectionsOf(text, classify, sections) && SectionsBlank(base, Dated(sections, title), masked)
    requires k < |Split(text)| == |Split(base)| && |Split(base)[k]| <= |Split(text)[k]|
    requires Offset(Split(base), k) == Offset(Split(text), k)
    ensures |Split(masked)| == |Split(base)|
    ensures Split(masked)[k]
            == if LineCovered(Split(text), Dated(sections, title), k) then Blanks(|Split(base)[k]|) else Split(base)[k]
  {
    hide SectionsOf, Split, Join, Covered, LineCovered, Offset, Dated;
    var lines, now, dated := Split(base), Split(masked), Dated(sections, title);
    SameShapeSameLines(base, masked);
    SameLengthsSameOffsets(lines, now, k);
    forall i: nat | i < |lines[k]|
      ensures now[k][i] == if LineCovered(Split(text), dated, k) then SPACE else lines[k][i]
    {
      UnitOfLine(base, k, i);
      UnitOfLine(masked, k, i);
      CoveredAsLine(text, classify, sections, title, k, i);
    }
  }

  lemma CoveredAsLine(text: Text, classify: Classifier, sections: seq<Section>, title: Text, k: nat, i: nat)
    requires SectionsOf(text, classify, sections) && k < |Split(text)| && i < |Split(text)[k]|
    ensures Covered(Dated(sections, title), Offset(Split(text), k) + i)
            <==> LineCovered(Split(text), Dated(sections, title), k)
  {
    hide SectionsOf, Split, Covers;
    var dated := Dated(sections, title);
    forall x | x in dated ensures Covers(x, Offset(Split(text), k) + i) <==> Covers(x, Offset(Split(text), k)) {
      DatedAreSections(sections, title, x);
      SectionsHoldLines(text, classify, sections, x, k, i);
    }
  }

  // Blanked in the visible text itself, dated sections always go as whole lines.
  lemma DatedLinesGo(text: Text, visible: Text, classify: Classifier, sections: seq<Section>, title: Text,
                     masked: Text, k: nat)
    requires SectionsOf(visible, classify, sections) && SectionsBlank(visible, Dated(sections, title), masked)
    requires k < |Split(visible)|
    ensures |Split(masked)| == |Split(visible)|
    ensures Split(masked)[k]
            == if LineCovered(Split(visible), Dated(sections, title), k) then Blanks(|Split(visible)[k]|)
               else Split(visible)[k]
  {
    LinesBlankWhole(visible, classify, sections, title, visible, masked, k);
  }

  // Blanked in the text, with the places found on the visible text, they go as whole
  // lines up to the first line that follows one that grew.
  lemma DatedLinesGoUntilGrowth(text: Text, visible: Text, classify: Classifier, sections: seq<Section>, title: Text,
                                masked: Text, k: nat)
    requires Visible(text, visible) && SectionsOf(visible, classify, sections)
    requires SectionsBlank(MaskHtmlComments(text), Dated(sections, title), masked)
    requires k < |Split(text)| && forall j: nat | j < k :: !Grows(Split(text), j)
    ensures |Split(masked)| == |Split(visible)| == |Split(MaskHtmlComments(text))| == |Split(text)|
    ensures Split(masked)[k]
            == if LineCovered(Split(visible), Dated(sections, title), k) then Blanks(|Split(MaskHtmlComments(text))[k]|)
               else Split(MaskHtmlComments(text))[k]
  {
    hide SectionsOf, SectionsBlank, Split, Join, Grows, CodeMasked, LineCovered, Offset;
    var base := MaskHtmlComments(text);
    PlacesKept(text, visible, base, k);
    LinesBlankWhole(visible, classify, sections, title, base, masked, k);
  }

  lemma PlacesKept(text: Text, visible: Text, base: Text, k: nat)
    requires Visible(text, visible) && base == MaskHtmlComments(text)
    requires k < |Split(text)|
    ensures |Split(base)| == |Split(text)| == |Split(visible)| && |Split(base)[k]| <= |Split(visible)[k]|
    ensures Offset(Split(base), k) == Offset(Split(visible), k) <==> forall j: nat | j < k :: !Grows(Split(text), j)
  {
    hide Split, Join, CodeMasked, Grows;
    var masked: seq<Text> :|
      masked != [] && CodeMasked(Split(text), masked) && visible == MaskHtmlComments(Join(masked));
    hide MaskHtmlComments;
    VisibleLines(text, visible, masked);
    SameLengthsSameOffsets(Split(visible), masked, k);
    BaseLines(text, base);
    SameLengthsSameOffsets(Split(base), Split(text), k);
    OffsetsKeptUntilGrowth(Split(text), masked, k);
    CodeMaskIsPointwise(Split(text), masked, k);
  }

  lemma BaseLines(text: Text, base: Text)
    requires base == MaskHtmlComments(text)
    ensures |Split(base)| == |Split(text)| && forall k | 0 <= k < |Split(text)| :: |Split(base)[k]| == |Split(text)[k]|
  {
    SameShapeSameLines(text, base);
  }
}
