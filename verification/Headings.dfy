// The sections of a Markdown text, found in one pass with a stack of open headings.
module Headings {
  import opened Options
  import opened TextOffsets
  import opened Lines

  // What a heading line says; which lines are headings is a parameter.
  datatype Head = Head(level: nat, title: Text)
  type Classifier = Text -> Option<Head>

  // `end` is set when the section is closed.
  datatype Section = Section(level: nat, title: Text, line: nat, start: nat, bodyStart: nat, end: Option<nat>)

  // ----- specification

  // The headings among the first `k` lines.
  function Headings(lines: seq<Text>, classify: Classifier, k: nat): seq<Section>
    requires k <= |lines|
  {
    if k == 0 then []
    else
      Headings(lines, classify, k - 1)
      + match classify(lines[k - 1])
        case None => []
        case Some(head) =>
          [Section(head.level, head.title, k, Offset(lines, k - 1), Offset(lines, k - 1) + |lines[k - 1]| + 1, None)]
  }

  // Heading `j` is the first after `i` of the same or a shallower level.
  ghost predicate ClosedBy(hs: seq<Section>, i: nat, j: nat) {
    i < j < |hs| && hs[j].level <= hs[i].level && forall m | i < m < j :: hs[m].level > hs[i].level
  }

  ghost predicate NeverClosed(hs: seq<Section>, i: nat) {
    i < |hs| && forall m | i < m < |hs| :: hs[m].level > hs[i].level
  }

  // Where the section of heading `i` ends: at the heading that closes it, else at the end of the text.
  ghost predicate EndsAt(hs: seq<Section>, i: nat, end: nat, length: nat) {
    (exists j: nat :: ClosedBy(hs, i, j) && end == hs[j].start) || (NeverClosed(hs, i) && end == length)
  }

  ghost predicate SectionsOf(text: Text, classify: Classifier, sections: seq<Section>) {
    var hs := Headings(Split(text), classify, |Split(text)|);
    && |sections| == |hs|
    && forall i: nat | i < |hs| ::
         && sections[i].end.Some? && sections[i] == hs[i].(end := sections[i].end)
         && EndsAt(hs, i, sections[i].end.value, |text|)
  }

  // ----- the pass

  // The sections so far against the headings so far: exactly those on the stack have
  // no end yet, and the stack is in the order of the text.
  ghost predicate Tracks(hs: seq<Section>, headings: seq<Section>, open: seq<nat>) {
    && |headings| == |hs|
    && (forall a, b | 0 <= a < b < |open| :: open[a] < open[b])
    && (forall i: nat :: i in open <==> NeverClosed(hs, i))
    && (forall i: nat | NeverClosed(hs, i) :: headings[i] == hs[i])
    && forall i: nat | i < |hs| && !NeverClosed(hs, i) :: Ended(hs, headings, i)
  }

  ghost predicate Ended(hs: seq<Section>, headings: seq<Section>, i: nat)
    requires i < |hs| == |headings|
  {
    exists j: nat :: ClosedBy(hs, i, j) && headings[i] == hs[i].(end := Some(hs[j].start))
  }

  // Of the stack, all from the top down to place `t` were closed at `end`.
  ghost predicate Popped(headings: seq<Section>, open: seq<nat>, end: nat, closed: seq<Section>, t: nat) {
    && |closed| == |headings| && t <= |open|
    && (forall a | 0 <= a < t :: open[a] < |headings| && closed[open[a]] == headings[open[a]])
    && (forall a | t <= a < |open| :: open[a] < |headings| && closed[open[a]] == headings[open[a]].(end := Some(end)))
    && forall i: nat | i < |headings| && i !in open :: closed[i] == headings[i]
  }

  ghost predicate Ascends(headings: seq<Section>, open: seq<nat>) {
    && (forall a | 0 <= a < |open| :: open[a] < |headings|)
    && forall a, b | 0 <= a < b < |open| :: open[a] < open[b] && headings[open[a]].level < headings[open[b]].level
  }

  // Closes every open heading of `level` or deeper.
  method CloseFrom(headings: seq<Section>, open: seq<nat>, level: nat, end: nat)
    returns (closed: seq<Section>, rest: seq<nat>)
    requires Ascends(headings, open)
    ensures rest <= open && Popped(headings, open, end, closed, |rest|) && SplitsAt(headings, open, level, |rest|)
  {
    hide Ascends, Popped, SplitsAt;
    closed, rest := headings, open;
    NothingPopped(headings, open, level, end);
    while rest != [] && closed[rest[|rest| - 1]].level >= level
      invariant |closed| == |headings| && |rest| <= |open| && rest == open[..|rest|]
      invariant Popped(headings, open, end, closed, |rest|)
      invariant forall a | |rest| <= a < |open| :: open[a] < |headings| && headings[open[a]].level >= level
      invariant forall a | 0 <= a < |rest| :: rest[a] < |closed| && closed[rest[a]] == headings[rest[a]]
    {
      var last := |rest| - 1;
      PopOne(headings, open, end, closed, last);
      closed := closed[rest[last] := closed[rest[last]].(end := Some(end))];
      rest := rest[..last];
      PoppedBelow(headings, open, end, closed, last);
    }
    SplitHere(headings, open, level, closed, rest);
  }

  // Exactly the first `t` of the stack are shallower than `level`.
  ghost predicate SplitsAt(headings: seq<Section>, open: seq<nat>, level: nat, t: nat) {
    && t <= |open|
    && (forall a | 0 <= a < |open| :: open[a] < |headings|)
    && forall a | 0 <= a < |open| :: a < t <==> headings[open[a]].level < level
  }

  lemma NothingPopped(headings: seq<Section>, open: seq<nat>, level: nat, end: nat)
    requires Ascends(headings, open)
    ensures Popped(headings, open, end, headings, |open|)
    ensures forall a | 0 <= a < |open| :: open[a] < |headings|
  {
  }

  lemma PopOne(headings: seq<Section>, open: seq<nat>, end: nat, closed: seq<Section>, t: nat)
    requires Ascends(headings, open) && t < |open| && Popped(headings, open, end, closed, t + 1)
    ensures open[t] < |closed| && closed[open[t]] == headings[open[t]]
    ensures Popped(headings, open, end, closed[open[t] := closed[open[t]].(end := Some(end))], t)
  {
  }

  lemma PoppedBelow(headings: seq<Section>, open: seq<nat>, end: nat, closed: seq<Section>, t: nat)
    requires t <= |open| && Popped(headings, open, end, closed, t)
    ensures |closed| == |headings|
    ensures forall a | 0 <= a < t :: open[a] < |headings| && closed[open[a]] == headings[open[a]]
  {
  }

  lemma SplitHere(headings: seq<Section>, open: seq<nat>, level: nat, closed: seq<Section>, rest: seq<nat>)
    requires Ascends(headings, open) && rest <= open && |closed| == |headings|
    requires forall a | |rest| <= a < |open| :: headings[open[a]].level >= level
    requires forall a | 0 <= a < |rest| :: rest[a] < |closed| && closed[rest[a]] == headings[rest[a]]
    requires rest == [] || closed[rest[|rest| - 1]].level < level
    ensures SplitsAt(headings, open, level, |rest|)
  {
    forall a | 0 <= a < |rest| ensures headings[open[a]].level < level {
      assert a == |rest| - 1 || headings[open[a]].level < headings[open[|rest| - 1]].level;
    }
  }

  method HeadingSections(text: Text, classify: Classifier) returns (headings: seq<Section>)
    ensures SectionsOf(text, classify, headings)
  {
    hide Tracks, SectionsOf, Ascends, SplitsAt, Popped, NeverClosed;
    var lines := Split(text);
    headings := [];
    var open: seq<nat> := [];
    var offset := 0;
    NothingTracked();
    for index := 0 to |lines|
      invariant offset == Offset(lines, index)
      invariant Tracks(Headings(lines, classify, index), headings, open)
    {
      ghost var hs := Headings(lines, classify, index);
      match classify(lines[index]) {
        case None =>
          assert Headings(lines, classify, index + 1) == hs;
        case Some(head) =>
          var next := Section(head.level, head.title, index + 1, offset, offset + |lines[index]| + 1, None);
          TrackedStack(hs, headings, open);
          var closed, rest := CloseFrom(headings, open, head.level, offset);
          TrackNext(hs, headings, open, closed, |rest|, next);
          assert Headings(lines, classify, index + 1) == hs + [next] && rest == open[..|rest|];
          headings := closed + [next];
          open := rest + [|headings| - 1];
      }
      offset := offset + |lines[index]| + 1;
    }
    ghost var hs := Headings(lines, classify, |lines|);
    TrackedStack(hs, headings, open);
    var closed, rest := CloseFrom(headings, open, 0, |text|);
    AllEnded(text, classify, hs, headings, open, closed, |rest|);
    headings := closed;
  }

  lemma NothingTracked()
    ensures Tracks([], [], [])
  {
  }

  lemma TrackedStack(hs: seq<Section>, headings: seq<Section>, open: seq<nat>)
    requires Tracks(hs, headings, open)
    ensures Ascends(headings, open)
    ensures forall a | 0 <= a < |open| :: NeverClosed(hs, open[a]) && headings[open[a]] == hs[open[a]]
  {
    forall a | 0 <= a < |open| ensures NeverClosed(hs, open[a]) && headings[open[a]] == hs[open[a]] {
      assert open[a] in open;
    }
  }

  // A new heading closes the open ones that are not shallower.
  lemma NextCloses(hs: seq<Section>, next: Section, i: nat)
    requires i < |hs|
    ensures NeverClosed(hs + [next], i) <==> NeverClosed(hs, i) && hs[i].level < next.level
    ensures NeverClosed(hs, i) && hs[i].level >= next.level ==> ClosedBy(hs + [next], i, |hs|)
    ensures forall j: nat | ClosedBy(hs, i, j) :: ClosedBy(hs + [next], i, j)
  {
    var now := hs + [next];
    assert now[|hs|] == next && now[..|hs|] == hs;
    if NeverClosed(now, i) {
      forall m | i < m < |hs| ensures hs[m].level > hs[i].level {
        assert now[m] == hs[m];
      }
    }
  }

  lemma StackNext(hs: seq<Section>, headings: seq<Section>, open: seq<nat>, t: nat, next: Section, i: nat)
    requires Tracks(hs, headings, open) && SplitsAt(headings, open, next.level, t)
    ensures i in open[..t] + [|hs|] <==> NeverClosed(hs + [next], i)
  {
    TrackedStack(hs, headings, open);
    hide Tracks;
    if i < |hs| {
      NextCloses(hs, next, i);
      hide NeverClosed;
      if i in open[..t] {
        var a :| 0 <= a < t && open[..t][a] == i;
        assert open[a] == i;
      }
      if NeverClosed(hs + [next], i) {
        StackHolds(hs, headings, open, i);
        var a :| 0 <= a < |open| && open[a] == i;
        assert open[..t][a] == i;
      }
    }
  }

  lemma StackHolds(hs: seq<Section>, headings: seq<Section>, open: seq<nat>, i: nat)
    requires Tracks(hs, headings, open) && NeverClosed(hs, i)
    ensures i in open
  {
  }

  lemma EndedNext(hs: seq<Section>, headings: seq<Section>, open: seq<nat>, closed: seq<Section>, t: nat,
                  next: Section, i: nat)
    requires Tracks(hs, headings, open)
    requires SplitsAt(headings, open, next.level, t) && Popped(headings, open, next.start, closed, t)
    requires i < |hs|
    ensures |closed| == |hs|
    ensures NeverClosed(hs + [next], i) ==> closed[i] == hs[i]
    ensures !NeverClosed(hs + [next], i) ==> Ended(hs + [next], closed + [next], i)
  {
    TrackedStack(hs, headings, open);
    NextCloses(hs, next, i);
    if NeverClosed(hs, i) {
      var a :| 0 <= a < |open| && open[a] == i;
      if a >= t {
        assert ClosedBy(hs + [next], i, |hs|) && (hs + [next])[|hs|] == next;
      }
    } else {
      assert Ended(hs, headings, i);
      var j: nat :| ClosedBy(hs, i, j) && headings[i] == hs[i].(end := Some(hs[j].start));
      assert ClosedBy(hs + [next], i, j) && (hs + [next])[j] == hs[j];
      assert i !in open;
    }
  }

  lemma TrackNext(hs: seq<Section>, headings: seq<Section>, open: seq<nat>, closed: seq<Section>, t: nat, next: Section)
    requires Tracks(hs, headings, open) && next.end.None?
    requires SplitsAt(headings, open, next.level, t) && Popped(headings, open, next.start, closed, t)
    ensures |closed| == |hs| && t <= |open| && Tracks(hs + [next], closed + [next], open[..t] + [|hs|])
  {
    hide NeverClosed, Ended, SplitsAt, Popped;
    StackAscends(hs, headings, open, t, next);
    forall i: nat ensures i in open[..t] + [|hs|] <==> NeverClosed(hs + [next], i) {
      StackNext(hs, headings, open, t, next, i);
    }
    forall i: nat | i < |hs|
      ensures |closed| == |hs|
      ensures NeverClosed(hs + [next], i) ==> closed[i] == hs[i]
      ensures !NeverClosed(hs + [next], i) ==> Ended(hs + [next], closed + [next], i)
    {
      EndedNext(hs, headings, open, closed, t, next, i);
    }
    SameCount(hs, headings, open, closed, t, next);
  }

  lemma SameCount(hs: seq<Section>, headings: seq<Section>, open: seq<nat>, closed: seq<Section>, t: nat, next: Section)
    requires Tracks(hs, headings, open) && Popped(headings, open, next.start, closed, t)
    ensures |closed| == |hs| && NeverClosed(hs + [next], |hs|)
    ensures forall i: nat | NeverClosed(hs + [next], i) :: i <= |hs|
  {
  }

  lemma StackAscends(hs: seq<Section>, headings: seq<Section>, open: seq<nat>, t: nat, next: Section)
    requires Tracks(hs, headings, open) && SplitsAt(headings, open, next.level, t)
    ensures t <= |open|
    ensures forall a, b | 0 <= a < b < |open[..t] + [|hs|]| :: (open[..t] + [|hs|])[a] < (open[..t] + [|hs|])[b]
  {
  }

  lemma AllEnded(text: Text, classify: Classifier, hs: seq<Section>, headings: seq<Section>, open: seq<nat>,
                 closed: seq<Section>, t: nat)
    requires hs == Headings(Split(text), classify, |Split(text)|)
    requires Tracks(hs, headings, open) && SplitsAt(headings, open, 0, t) && Popped(headings, open, |text|, closed, t)
    ensures SectionsOf(text, classify, closed)
  {
    forall i: nat | i < |hs|
      ensures closed[i].end.Some? && closed[i] == hs[i].(end := closed[i].end)
              && EndsAt(hs, i, closed[i].end.value, |text|)
    {
      if NeverClosed(hs, i) {
        var a :| 0 <= a < |open| && open[a] == i;
        assert a >= t;
      } else {
        assert Ended(hs, headings, i);
        assert i !in open;
      }
    }
  }

  // ----- what the sections are

  // The headings stand in order, each at the start of its own line.
  lemma {:induction false} HeadingsInOrder(lines: seq<Text>, classify: Classifier, k: nat)
    requires k <= |lines|
    ensures forall i | 0 <= i < |Headings(lines, classify, k)| ::
              AtItsLine(lines, classify, Headings(lines, classify, k)[i], k)
    ensures forall i, j | 0 <= i < j < |Headings(lines, classify, k)| ::
              Headings(lines, classify, k)[i].line < Headings(lines, classify, k)[j].line
  {
    if k > 0 {
      HeadingsInOrder(lines, classify, k - 1);
    }
  }

  predicate AtItsLine(lines: seq<Text>, classify: Classifier, h: Section, k: nat)
    requires k <= |lines|
  {
    && 1 <= h.line <= k
    && classify(lines[h.line - 1]) == Some(Head(h.level, h.title))
    && h.start == Offset(lines, h.line - 1) && h.bodyStart == h.start + |lines[h.line - 1]| + 1
  }

  // Every heading line has its section.
  lemma {:induction false} EveryHeadingListed(lines: seq<Text>, classify: Classifier, k: nat, n: nat)
    requires n < k <= |lines| && classify(lines[n]).Some?
    ensures exists i | 0 <= i < |Headings(lines, classify, k)| :: Headings(lines, classify, k)[i].line == n + 1
  {
    var hs := Headings(lines, classify, k);
    if n < k - 1 {
      EveryHeadingListed(lines, classify, k - 1, n);
      var i :| 0 <= i < |Headings(lines, classify, k - 1)| && Headings(lines, classify, k - 1)[i].line == n + 1;
      assert hs[i].line == n + 1;
    } else {
      assert hs[|hs| - 1].line == n + 1;
    }
  }

  // The end of a section is determined by the headings.
  lemma EndIsDetermined(hs: seq<Section>, i: nat, length: nat, e: nat, f: nat)
    requires EndsAt(hs, i, e, length) && EndsAt(hs, i, f, length)
    ensures e == f
  {
  }

  // A section ends after its heading line, inside the text.
  lemma EndIsInside(text: Text, classify: Classifier, hs: seq<Section>, i: nat, e: nat)
    requires hs == Headings(Split(text), classify, |Split(text)|) && i < |hs| && EndsAt(hs, i, e, |text|)
    ensures hs[i].start < hs[i].bodyStart <= e + 1 <= |text| + 1
  {
    hide NeverClosed, Headings, Split, Join, Offset;
    var lines := Split(text);
    HeadingsInOrder(lines, classify, |lines|);
    JoinOfSplit(text);
    LineAtOffset(lines, hs[i].line - 1);
    if j: nat :| ClosedBy(hs, i, j) && e == hs[j].start {
      OffsetsGrow(lines, hs[i].line - 1, hs[j].line - 1);
      LineAtOffset(lines, hs[j].line - 1);
    }
  }

  // Sections are nested or disjoint, and a nested one belongs to a deeper heading.
  lemma SectionsAreLaminar(text: Text, classify: Classifier, sections: seq<Section>, i: nat, j: nat)
    requires SectionsOf(text, classify, sections) && i < j < |sections|
    ensures sections[i].start < sections[j].start
    ensures || sections[i].end.value <= sections[j].start
            || (sections[j].end.value <= sections[i].end.value && sections[i].level < sections[j].level)
  {
    hide Headings, Split, EndsAt;
    var hs := Headings(Split(text), classify, |Split(text)|);
    StartsGrow(text, classify, hs);
    EndIsInside(text, classify, hs, j, sections[j].end.value);
    NestedOrApart(hs, i, j, |text|, sections[i].end.value, sections[j].end.value);
  }

  lemma NestedOrApart(hs: seq<Section>, i: nat, j: nat, length: nat, e: nat, f: nat)
    requires i < j < |hs| && EndsAt(hs, i, e, length) && EndsAt(hs, j, f, length) && f <= length
    requires forall a, b | 0 <= a < b < |hs| :: hs[a].start < hs[b].start
    ensures e <= hs[j].start || (f <= e && hs[i].level < hs[j].level)
  {
    if !NeverClosed(hs, i) {
      var m: nat :| ClosedBy(hs, i, m) && e == hs[m].start;
      if m > j {
        EndsBeforeCloser(hs, i, j, m, length, f);
      }
    }
  }

  // Inside the section of `i`, a later heading is closed no later than `i` is.
  lemma EndsBeforeCloser(hs: seq<Section>, i: nat, j: nat, m: nat, length: nat, e: nat)
    requires ClosedBy(hs, i, m) && i < j < m && EndsAt(hs, j, e, length)
    requires forall a, b | 0 <= a < b < |hs| :: hs[a].start < hs[b].start
    ensures e <= hs[m].start && hs[i].level < hs[j].level
  {
    assert hs[m].level <= hs[i].level < hs[j].level;
    var n: nat :| ClosedBy(hs, j, n) && e == hs[n].start;
    assert n <= m;
  }

  lemma StartsGrow(text: Text, classify: Classifier, hs: seq<Section>)
    requires hs == Headings(Split(text), classify, |Split(text)|)
    ensures forall a, b | 0 <= a < b < |hs| :: hs[a].start < hs[b].start
  {
    var lines := Split(text);
    HeadingsInOrder(lines, classify, |lines|);
    forall a, b | 0 <= a < b < |hs| ensures hs[a].start < hs[b].start {
      OffsetsGrow(lines, hs[a].line - 1, hs[b].line - 1);
    }
  }
}
