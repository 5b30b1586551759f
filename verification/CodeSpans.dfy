// Inline code on one Markdown line: runs of backticks paired with runs of the same length.
module CodeSpans {
  import opened Options
  import opened TextOffsets
  import opened Lines
  import opened Brackets

  const TICK: Unit := '`' as int

  datatype Span = Span(start: nat, end: nat)

  predicate Within(s: Span, i: nat) {
    s.start <= i < s.end
  }

  predicate InSpan(spans: seq<Span>, i: nat) {
    exists s | s in spans :: Within(s, i)
  }

  // ----- runs of backticks

  predicate IsTick(line: Text, k: nat) {
    k < |line| && line[k] == TICK
  }

  predicate Ticks(line: Text, a: nat, b: nat) {
    forall k: nat | a <= k < b :: IsTick(line, k)
  }

  // The first unit at or after `c` that is not a backtick.
  function RunEnd(line: Text, c: nat): (e: nat)
    requires c <= |line|
    ensures c <= e <= |line| && Ticks(line, c, e) && !IsTick(line, e)
    decreases |line| - c
  {
    if IsTick(line, c) then RunEnd(line, c + 1) else c
  }

  // `r` backticks at `k`, perhaps inside a longer run.
  predicate RunAt(line: Text, k: nat, r: nat) {
    k + r <= |line| && Ticks(line, k, k + r)
  }

  // A run of exactly `r` backticks.
  predicate ExactRun(line: Text, k: nat, r: nat) {
    RunAt(line, k, r) && !(k > 0 && IsTick(line, k - 1)) && !IsTick(line, k + r)
  }

  // An unescaped backtick.
  predicate OpensCode(line: Text, c: nat) {
    IsTick(line, c) && !Escaped(line, c)
  }

  // ----- specification: an opening run is closed by the first later run of its length

  function Closer(line: Text, from: nat, r: nat): (k: Option<nat>)
    ensures k.Some? ==> from <= k.value && ExactRun(line, k.value, r)
    ensures k.Some? ==> forall j: nat | from <= j < k.value :: !ExactRun(line, j, r)
    ensures k.None? ==> forall j: nat | from <= j :: !ExactRun(line, j, r)
    decreases |line| - from
  {
    if from + r > |line| then None
    else if ExactRun(line, from, r) then Some(from)
    else if from == |line| then None
    else Closer(line, from + 1, r)
  }

  // The code spans from `c` on.
  function Spans(line: Text, c: nat): seq<Span>
    decreases |line| - c
  {
    if c >= |line| then []
    else if !OpensCode(line, c) then Spans(line, c + 1)
    else
      var e := RunEnd(line, c);
      match Closer(line, e, e - c)
      case Some(k) => [Span(c, k + (e - c))] + Spans(line, k + (e - c))
      case None => Spans(line, e)
  }

  // The opening runs from `c` on that have no closing one; each is skipped as a whole.
  function Unclosed(line: Text, c: nat): seq<nat>
    decreases |line| - c
  {
    if c >= |line| then []
    else if !OpensCode(line, c) then Unclosed(line, c + 1)
    else
      var e := RunEnd(line, c);
      match Closer(line, e, e - c)
      case Some(k) => Unclosed(line, k + (e - c))
      case None => [c] + Unclosed(line, e)
  }

  // One step of the scan, for each of its three cases.
  lemma OtherStep(line: Text, c: nat)
    requires !OpensCode(line, c)
    ensures Spans(line, c) == if c < |line| then Spans(line, c + 1) else []
    ensures Unclosed(line, c) == if c < |line| then Unclosed(line, c + 1) else []
  {
    hide Closer, RunEnd, Escaped;
  }

  lemma SpanStep(line: Text, c: nat, k: nat)
    requires OpensCode(line, c) && Closer(line, RunEnd(line, c), RunEnd(line, c) - c) == Some(k)
    ensures c < RunEnd(line, c) <= k && k + (RunEnd(line, c) - c) <= |line|
    ensures Spans(line, c) == [Span(c, k + (RunEnd(line, c) - c))] + Spans(line, k + (RunEnd(line, c) - c))
    ensures Unclosed(line, c) == Unclosed(line, k + (RunEnd(line, c) - c))
  {
    hide Closer, Escaped, Ticks, InSpan;
    assert IsTick(line, c);
  }

  lemma UnclosedStep(line: Text, c: nat)
    requires OpensCode(line, c) && Closer(line, RunEnd(line, c), RunEnd(line, c) - c).None?
    ensures c < RunEnd(line, c) <= |line|
    ensures Spans(line, c) == Spans(line, RunEnd(line, c))
    ensures Unclosed(line, c) == [c] + Unclosed(line, RunEnd(line, c))
  {
    hide Closer, Escaped, Ticks, ExactRun;
    assert IsTick(line, c);
  }

  // Where the run of backticks that ends the line starts.
  function TailStart(line: Text, n: nat): (s: nat)
    requires n <= |line|
    ensures s <= n && Ticks(line, s, n) && !(s > 0 && IsTick(line, s - 1))
  {
    if n > 0 && IsTick(line, n - 1) then TailStart(line, n - 1) else n
  }

  // An unclosed run of `r` ending at `e` for which the search still runs off the end of
  // the line: nothing follows it, or `r` divides the run that ends the line.
  predicate Dangles(line: Text, e: nat, r: nat) {
    || e == |line|
    || (r > 0 && TailStart(line, |line|) < |line| && (|line| - TailStart(line, |line|)) % r == 0)
  }

  predicate DanglesAt(line: Text, c: nat) {
    c <= |line| && Dangles(line, RunEnd(line, c), RunEnd(line, c) - c)
  }

  // The first unclosed run that dangles.
  function FirstDangling(line: Text, unclosed: seq<nat>): Option<nat> {
    if unclosed == [] then None
    else if DanglesAt(line, unclosed[0]) then Some(unclosed[0])
    else FirstDangling(line, unclosed[1..])
  }

  function Dangling(line: Text): Option<nat> {
    FirstDangling(line, Unclosed(line, 0))
  }

  // Exactly what the pass returns: the code spans are blank, and a dangling run blanks
  // the rest of the line and as many units past its end as the run is long.
  ghost predicate MaskOf(line: Text, chars: Text) {
    match Dangling(line)
    case None => Painted(line, Spans(line, 0), |line|, |line|, chars)
    case Some(d) =>
      d < |line| && Painted(line, Spans(line, 0), d, |line| + (RunEnd(line, d) - d), chars)
  }

  // Of `size` units, those in the spans and all from `stop` on are blank.
  ghost predicate Painted(line: Text, spans: seq<Span>, stop: nat, size: nat, chars: Text) {
    && stop <= |line| && |chars| == size
    && forall i: nat | i < size :: chars[i] == if i >= stop || InSpan(spans, i) then SPACE else line[i]
  }

  // ----- the pass

  // The library search for `r` backticks.
  method IndexOfRun(line: Text, r: nat, from: nat) returns (k: int)
    requires r > 0
    ensures k == -1 ==> forall j: nat | from <= j :: !RunAt(line, j, r)
    ensures k != -1 ==> from <= k && RunAt(line, k, r) && forall j: nat | from <= j < k :: !RunAt(line, j, r)
  {
    var at := from;
    while at + r <= |line|
      invariant from <= at
      invariant forall j: nat | from <= j < at :: !RunAt(line, j, r)
      decreases |line| - at
    {
      var n := 0;
      while n < r && IsTick(line, at + n)
        invariant n <= r && Ticks(line, at, at + n)
      {
        n := n + 1;
      }
      if n == r {
        return at;
      }
      at := at + 1;
    }
    return -1;
  }

  // Everything from the start of some run to `p` is whole pieces of `r` backticks.
  ghost predicate Aligned(line: Text, endRun: nat, r: nat, p: nat) {
    r > 0 && exists s: nat :: PiecesFrom(line, endRun, r, s, p)
  }

  ghost predicate PiecesFrom(line: Text, endRun: nat, r: nat, s: nat, p: nat)
    requires r > 0
  {
    endRun <= s < p && !(s > 0 && IsTick(line, s - 1)) && Ticks(line, s, p) && (p - s) % r == 0
  }

  // The search for the closing run. It returns the length of the line, not -1, when it
  // steps off the end.
  method FindCloser(line: Text, endRun: nat, runLength: nat) returns (closerAt: int)
    requires 0 < endRun <= |line| && !IsTick(line, endRun) && runLength > 0
    ensures match Closer(line, endRun, runLength)
            case Some(k) => closerAt == k
            case None => closerAt == if Dangles(line, endRun, runLength) then |line| else -1
  {
    hide Aligned, Dangles, ExactRun, RunAt;
    closerAt := endRun;
    while closerAt < |line|
      invariant endRun <= closerAt <= |line|
      invariant forall j: nat | endRun <= j < closerAt :: !ExactRun(line, j, runLength)
      invariant closerAt > endRun ==> Aligned(line, endRun, runLength, closerAt)
    {
      var found := IndexOfRun(line, runLength, closerAt);
      if found < 0 {
        RunsOut(line, endRun, runLength, closerAt);
        return -1;
      }
      NextPiece(line, endRun, runLength, closerAt, found);
      closerAt := found;
      if !IsTick(line, closerAt - 1) && !IsTick(line, closerAt + runLength) {
        return closerAt;
      }
      closerAt := closerAt + runLength;
    }
    StepsOff(line, endRun, runLength);
  }

  lemma NextPiece(line: Text, endRun: nat, r: nat, p: nat, q: nat)
    requires 0 < endRun <= p <= q && !IsTick(line, endRun) && r > 0
    requires p > endRun ==> Aligned(line, endRun, r, p)
    requires RunAt(line, q, r) && forall j: nat | p <= j < q :: !RunAt(line, j, r)
    ensures ExactRun(line, q, r) <==> !IsTick(line, q - 1) && !IsTick(line, q + r)
    ensures forall j: nat | p <= j < q + r :: ExactRun(line, j, r) ==> j == q
    ensures Aligned(line, endRun, r, q + r) && q + r <= |line|
  {
    assert IsTick(line, q);
    if q > p {
      if IsTick(line, q - 1) {
        OneEarlier(line, q, r);
      }
      assert r % r == 0;
      assert PiecesFrom(line, endRun, r, q, q + r);
    } else {
      hide ExactRun;
      var s: nat :| PiecesFrom(line, endRun, r, s, p);
      OneMorePiece(line, endRun, r, s, q);
    }
    forall j: nat | q < j < q + r ensures !ExactRun(line, j, r) {
      assert IsTick(line, j - 1);
    }
  }

  lemma OneEarlier(line: Text, q: nat, r: nat)
    requires q > 0 && RunAt(line, q, r) && IsTick(line, q - 1) && r > 0
    ensures RunAt(line, q - 1, r)
  {
  }

  lemma OneMorePiece(line: Text, endRun: nat, r: nat, s: nat, q: nat)
    requires r > 0 && PiecesFrom(line, endRun, r, s, q) && RunAt(line, q, r)
    ensures PiecesFrom(line, endRun, r, s, q + r)
  {
    hide IsTick;
    AddOne(q - s, r);
    assert q + r - s == q - s + r;
  }

  lemma AddOne(m: nat, r: nat)
    requires r > 0 && m % r == 0
    ensures (m + r) % r == 0
  {
    assert m + r == r * (m / r + 1);
    MultipleHasNoRest(m / r + 1, r);
  }

  lemma MultipleHasNoRest(k: nat, r: nat)
    requires r > 0
    ensures (r * k) % r == 0
  {
    var m := r * k;
    var q := m / r;
    if q < k {
      Multiply(q + 1, k, r);
    } else {
      Multiply(k, q, r);
    }
  }

  // Both are the start of the run of backticks before `p`.
  lemma SameStart(line: Text, s: nat, t: nat, p: nat)
    requires s < p && t < p && Ticks(line, s, p) && Ticks(line, t, p)
    requires !(s > 0 && IsTick(line, s - 1)) && !(t > 0 && IsTick(line, t - 1))
    ensures s == t
  {
    if s < t {
      TickBefore(line, s, t, p);
    }
    if t < s {
      TickBefore(line, t, s, p);
    }
  }

  lemma TickBefore(line: Text, a: nat, b: nat, p: nat)
    requires a < b <= p && Ticks(line, a, p)
    ensures IsTick(line, b - 1)
  {
  }

  lemma StepsOff(line: Text, endRun: nat, r: nat)
    requires 0 < endRun <= |line| && r > 0
    requires forall j: nat | endRun <= j < |line| :: !ExactRun(line, j, r)
    requires |line| > endRun ==> Aligned(line, endRun, r, |line|)
    ensures Dangles(line, endRun, r) && forall j: nat | endRun <= j :: !ExactRun(line, j, r)
  {
    if endRun < |line| {
      var s: nat :| PiecesFrom(line, endRun, r, s, |line|);
      assert IsTick(line, |line| - 1);
      SameStart(line, s, TailStart(line, |line|), |line|);
    }
  }

  lemma RunsOut(line: Text, endRun: nat, r: nat, p: nat)
    requires 0 < endRun <= p < |line| && !IsTick(line, endRun) && r > 0
    requires p > endRun ==> Aligned(line, endRun, r, p)
    requires forall j: nat | endRun <= j < p :: !ExactRun(line, j, r)
    requires forall j: nat | p <= j :: !RunAt(line, j, r)
    ensures !Dangles(line, endRun, r) && forall j: nat | endRun <= j :: !ExactRun(line, j, r)
  {
    var t := TailStart(line, |line|);
    if t < |line| && (|line| - t) % r == 0 {
      TailIsLonger(|line| - t, r);
      assert RunAt(line, |line| - r, r);
      assert !IsTick(line, endRun) && endRun < t <= |line| - r < p;
      var s: nat :| PiecesFrom(line, endRun, r, s, p);
      SameStart(line, s, t, p);
      MultiplesApart(p - t, |line| - t, r);
    }
  }

  lemma Multiply(a: nat, b: nat, r: nat)
    requires a <= b
    ensures r * a <= r * b
  {
  }

  lemma MultiplesApart(a: nat, b: nat, r: nat)
    requires r > 0 && a % r == 0 && b % r == 0 && a < b
    ensures b - a >= r
  {
    if b / r <= a / r {
      Multiply(b / r, a / r, r);
    } else {
      Multiply(a / r + 1, b / r, r);
    }
  }

  lemma TailIsLonger(m: nat, r: nat)
    requires r > 0 && m > 0 && m % r == 0
    ensures m >= r
  {
    MultiplesApart(0, m, r);
  }

  // Assigns blanks; places past the end grow the line.
  method Blank(chars: Text, from: nat, to: nat) returns (blanked: Text)
    requires from <= |chars|
    ensures |blanked| == if to <= |chars| then |chars| else to
    ensures forall i: nat | i < |blanked| :: blanked[i] == if from <= i < to then SPACE else chars[i]
  {
    blanked := chars;
    for index := from to if from <= to then to else from
      invariant |blanked| == if index <= |chars| then |chars| else index
      invariant forall i: nat | i < |blanked| :: blanked[i] == if from <= i < index then SPACE else chars[i]
    {
      blanked := if index < |blanked| then blanked[index := SPACE] else blanked + [SPACE];
    }
  }

  // The scan stands at `cursor` with `done` behind it and nothing dangling so far.
  ghost predicate ScannedTo(line: Text, cursor: nat, done: seq<Span>, chars: Text) {
    && cursor <= |line|
    && Spans(line, 0) == done + Spans(line, cursor)
    && Dangling(line) == FirstDangling(line, Unclosed(line, cursor))
    && (forall s | s in done :: s.end <= cursor)
    && Painted(line, done, |line|, |line|, chars)
  }

  method MaskLine(line: Text) returns (chars: Text)
    ensures MaskOf(line, chars)
  {
    hide ScannedTo, MaskOf, Spans, Dangles, Closer, InSpan;
    chars := line;
    var cursor := 0;
    ghost var done: seq<Span> := [];
    NothingScanned(line);
    while cursor < |line|
      invariant if cursor <= |line| then ScannedTo(line, cursor, done, chars) else MaskOf(line, chars)
      invariant cursor <= |line| ==> |chars| == |line|
      decreases |line| - cursor
    {
      var escaped := IsEscaped(line, cursor);
      if line[cursor] != TICK || escaped {
        PastOther(line, cursor, done, chars);
        cursor := cursor + 1;
        continue;
      }
      var endRun := cursor + 1;
      while endRun < |line| && line[endRun] == TICK
        invariant cursor < endRun <= |line| && RunEnd(line, cursor) == RunEnd(line, endRun)
      {
        endRun := endRun + 1;
      }
      var runLength := endRun - cursor;
      var closerAt := FindCloser(line, endRun, runLength);
      if closerAt < 0 {
        PastUnclosed(line, cursor, done, chars);
        cursor := endRun;
        continue;
      }
      var blanked := Blank(chars, cursor, closerAt + runLength);
      PastRun(line, cursor, done, chars, closerAt, blanked);
      done := done + [Span(cursor, closerAt + runLength)];
      chars := blanked;
      cursor := closerAt + runLength;
    }
    AllScanned(line, cursor, done, chars);
  }

  lemma NothingScanned(line: Text)
    ensures ScannedTo(line, 0, [], line)
  {
  }

  lemma PastOther(line: Text, c: nat, done: seq<Span>, chars: Text)
    requires c < |line| && !OpensCode(line, c) && ScannedTo(line, c, done, chars)
    ensures ScannedTo(line, c + 1, done, chars)
  {
    hide Spans, Unclosed, Painted;
    OtherStep(line, c);
  }

  lemma PastUnclosed(line: Text, c: nat, done: seq<Span>, chars: Text)
    requires OpensCode(line, c) && ScannedTo(line, c, done, chars)
    requires Closer(line, RunEnd(line, c), RunEnd(line, c) - c).None? && !DanglesAt(line, c)
    ensures ScannedTo(line, RunEnd(line, c), done, chars)
  {
    hide Painted, Dangles, Spans, Unclosed, Closer, RunEnd, Escaped, ExactRun;
    UnclosedStep(line, c);
    assert ([c] + Unclosed(line, RunEnd(line, c)))[1..] == Unclosed(line, RunEnd(line, c));
  }

  lemma PastRun(line: Text, c: nat, done: seq<Span>, chars: Text, closerAt: nat, blanked: Text)
    requires OpensCode(line, c) && ScannedTo(line, c, done, chars) && |chars| == |line|
    requires match Closer(line, RunEnd(line, c), RunEnd(line, c) - c)
             case Some(k) => closerAt == k
             case None => DanglesAt(line, c) && closerAt == |line|
    requires |blanked| == if closerAt + (RunEnd(line, c) - c) <= |chars| then |chars|
                          else closerAt + (RunEnd(line, c) - c)
    requires forall i: nat | i < |blanked| ::
               blanked[i] == if c <= i < closerAt + (RunEnd(line, c) - c) then SPACE else chars[i]
    ensures closerAt + (RunEnd(line, c) - c) > c
    ensures if closerAt + (RunEnd(line, c) - c) <= |line|
            then ScannedTo(line, closerAt + (RunEnd(line, c) - c), done + [Span(c, closerAt + (RunEnd(line, c) - c))],
                           blanked)
            else MaskOf(line, blanked)
  {
    hide ScannedTo, MaskOf, Dangles, Spans, InSpan, Escaped;
    var e := RunEnd(line, c);
    if Closer(line, e, e - c).Some? {
      PastSpan(line, c, done, chars, closerAt, blanked);
    } else {
      PastDangling(line, c, done, chars, blanked);
    }
  }

  lemma PastSpan(line: Text, c: nat, done: seq<Span>, chars: Text, k: nat, blanked: Text)
    requires OpensCode(line, c) && ScannedTo(line, c, done, chars)
    requires Closer(line, RunEnd(line, c), RunEnd(line, c) - c) == Some(k)
    requires |blanked| == |line|
    requires forall i: nat | i < |blanked| ::
               blanked[i] == if c <= i < k + (RunEnd(line, c) - c) then SPACE else chars[i]
    ensures ScannedTo(line, k + (RunEnd(line, c) - c), done + [Span(c, k + (RunEnd(line, c) - c))], blanked)
  {
    hide Dangles, FirstDangling, Spans, Unclosed, OpensCode, InSpan, RunEnd, Painted;
    var end := k + (RunEnd(line, c) - c);
    var span := Span(c, end);
    SpanStep(line, c, k);
    assert done + ([span] + Spans(line, end)) == (done + [span]) + Spans(line, end);
    PaintSpan(line, done, span, chars, blanked);
  }

  lemma PaintSpan(line: Text, done: seq<Span>, span: Span, chars: Text, blanked: Text)
    requires Painted(line, done, |line|, |line|, chars) && span.end <= |line| == |blanked|
    requires forall i: nat | i < |blanked| :: blanked[i] == if span.start <= i < span.end then SPACE else chars[i]
    ensures Painted(line, done + [span], |line|, |line|, blanked)
  {
    hide InSpan;
    forall i: nat ensures InSpan(done + [span], i) <==> InSpan(done, i) || span.start <= i < span.end {
      OneMoreSpan(done, span, i);
    }
  }

  lemma OneMoreSpan(done: seq<Span>, span: Span, i: nat)
    ensures InSpan(done + [span], i) <==> InSpan(done, i) || Within(span, i)
  {
    assert forall s :: s in done + [span] <==> s in done || s == span;
  }

  lemma PastDangling(line: Text, c: nat, done: seq<Span>, chars: Text, blanked: Text)
    requires OpensCode(line, c) && ScannedTo(line, c, done, chars)
    requires Closer(line, RunEnd(line, c), RunEnd(line, c) - c).None? && DanglesAt(line, c)
    requires |blanked| == |line| + (RunEnd(line, c) - c)
    requires forall i: nat | i < |blanked| :: blanked[i] == if c <= i then SPACE else chars[i]
    ensures MaskOf(line, blanked)
  {
    hide Dangles, Spans, Unclosed, Within, Closer, RunEnd;
    FirstOneDangles(line, c, done, chars);
    forall i: nat | i < c ensures InSpan(Spans(line, 0), i) <==> InSpan(done, i) {
      BeforeCursor(line, c, done, i);
    }
  }

  lemma FirstOneDangles(line: Text, c: nat, done: seq<Span>, chars: Text)
    requires OpensCode(line, c) && ScannedTo(line, c, done, chars)
    requires Closer(line, RunEnd(line, c), RunEnd(line, c) - c).None? && DanglesAt(line, c)
    ensures Dangling(line) == Some(c)
  {
    hide Dangles, Painted, Spans, Unclosed, Closer, RunEnd, Escaped, ExactRun;
    UnclosedStep(line, c);
  }

  lemma {:induction false} SpansStartLater(line: Text, c: nat)
    ensures forall s | s in Spans(line, c) :: c <= s.start
    decreases |line| - c
  {
    hide Spans, Unclosed, Closer, RunEnd, Escaped, ExactRun;
    if !OpensCode(line, c) {
      OtherStep(line, c);
      if c < |line| {
        SpansStartLater(line, c + 1);
      }
    } else {
      var e := RunEnd(line, c);
      match Closer(line, e, e - c) {
        case Some(k) =>
          SpanStep(line, c, k);
          SpansStartLater(line, k + (e - c));
        case None =>
          UnclosedStep(line, c);
          SpansStartLater(line, e);
      }
    }
  }

  lemma BeforeCursor(line: Text, c: nat, done: seq<Span>, i: nat)
    requires Spans(line, 0) == done + Spans(line, c) && i < c
    ensures InSpan(Spans(line, 0), i) <==> InSpan(done, i)
  {
    SpansStartLater(line, c);
  }

  lemma AllScanned(line: Text, cursor: nat, done: seq<Span>, chars: Text)
    requires cursor >= |line|
    requires if cursor <= |line| then ScannedTo(line, cursor, done, chars) else MaskOf(line, chars)
    ensures MaskOf(line, chars)
  {
    if cursor <= |line| {
      assert done + Spans(line, cursor) == done;
    }
  }

  // ----- what the mask means

  // A span runs from an unescaped run to the first later run of exactly its length.
  predicate IsCode(line: Text, s: Span) {
    && OpensCode(line, s.start)
    && RunEnd(line, s.start) < s.end
    && var r := RunEnd(line, s.start) - s.start;
       s.end >= r && Closer(line, RunEnd(line, s.start), r) == Some(s.end - r)
  }

  lemma {:induction false} SpansAreCode(line: Text, c: nat, s: Span)
    requires s in Spans(line, c)
    ensures c <= s.start && IsCode(line, s) && s.end <= |line|
    decreases |line| - c
  {
    hide IsCode, Spans, Unclosed, Closer, RunEnd, Escaped, ExactRun;
    if !OpensCode(line, c) {
      OtherStep(line, c);
      SpansAreCode(line, c + 1, s);
    } else {
      var e := RunEnd(line, c);
      match Closer(line, e, e - c) {
        case Some(k) =>
          var span := Span(c, k + (e - c));
          SpanStep(line, c, k);
          FirstSpanIsCode(line, c, k);
          if s != span {
            SpansAreCode(line, span.end, s);
          }
        case None =>
          UnclosedStep(line, c);
          SpansAreCode(line, e, s);
      }
    }
  }

  lemma FirstSpanIsCode(line: Text, c: nat, k: nat)
    requires OpensCode(line, c) && Closer(line, RunEnd(line, c), RunEnd(line, c) - c) == Some(k)
    ensures IsCode(line, Span(c, k + (RunEnd(line, c) - c))) && k + (RunEnd(line, c) - c) <= |line|
  {
    hide Escaped, Spans, Unclosed, Closer, ExactRun;
    SpanStep(line, c, k);
  }

  lemma {:induction false} SpansAreInOrder(line: Text, c: nat, i: nat, j: nat)
    requires i < j < |Spans(line, c)|
    ensures Spans(line, c)[i].end <= Spans(line, c)[j].start
    decreases |line| - c
  {
    hide Spans, Unclosed, Closer, RunEnd, Escaped, ExactRun;
    if !OpensCode(line, c) {
      OtherStep(line, c);
      SpansAreInOrder(line, c + 1, i, j);
    } else {
      var e := RunEnd(line, c);
      match Closer(line, e, e - c) {
        case Some(k) =>
          var rest := Spans(line, k + (e - c));
          SpanStep(line, c, k);
          if i > 0 {
            SpansAreInOrder(line, k + (e - c), i - 1, j - 1);
          } else {
            SpansStartLater(line, k + (e - c));
            assert rest[j - 1] in rest;
          }
        case None =>
          UnclosedStep(line, c);
          SpansAreInOrder(line, e, i, j);
      }
    }
  }

  ghost predicate Skipped(line: Text, unclosed: seq<nat>, c: nat) {
    exists u | u in unclosed :: u <= c && u <= |line| && c < RunEnd(line, u)
  }

  // Every unescaped backtick is in a code span or in an unclosed run.
  lemma {:induction false} NoCodeIsMissed(line: Text, c: nat, i: nat)
    requires c <= i && OpensCode(line, i)
    ensures InSpan(Spans(line, c), i) || Skipped(line, Unclosed(line, c), i)
    decreases |line| - c
  {
    hide InSpan, Skipped, Spans, Unclosed, Closer, RunEnd, Escaped, ExactRun;
    if !OpensCode(line, c) {
      OtherStep(line, c);
      NoCodeIsMissed(line, c + 1, i);
    } else {
      var e := RunEnd(line, c);
      match Closer(line, e, e - c) {
        case Some(k) =>
          var span := Span(c, k + (e - c));
          SpanStep(line, c, k);
          StillInSpan(span, Spans(line, span.end), i);
          if !Within(span, i) {
            NoCodeIsMissed(line, span.end, i);
          }
        case None =>
          UnclosedStep(line, c);
          StillSkipped(line, c, Unclosed(line, e), i);
          if i >= e {
            NoCodeIsMissed(line, e, i);
          }
      }
    }
  }

  lemma StillInSpan(span: Span, spans: seq<Span>, i: nat)
    ensures InSpan([span] + spans, i) <==> Within(span, i) || InSpan(spans, i)
  {
    assert forall s :: s in [span] + spans <==> s in spans || s == span;
  }

  lemma StillSkipped(line: Text, u: nat, unclosed: seq<nat>, i: nat)
    requires u <= |line|
    ensures Skipped(line, unclosed, i) || u <= i < RunEnd(line, u) ==> Skipped(line, [u] + unclosed, i)
  {
    assert forall v | v in unclosed :: v in [u] + unclosed;
    assert u in [u] + unclosed;
  }

  // An unclosed run opens code, has no closing run and is not blank.
  lemma {:induction false} UnclosedAreOpen(line: Text, c: nat, u: nat)
    requires u in Unclosed(line, c)
    ensures c <= u && OpensCode(line, u) && Closer(line, RunEnd(line, u), RunEnd(line, u) - u).None?
    ensures !InSpan(Spans(line, c), u)
    decreases |line| - c
  {
    hide Spans, Unclosed, Closer, RunEnd, Escaped, ExactRun;
    if !OpensCode(line, c) {
      OtherStep(line, c);
      UnclosedAreOpen(line, c + 1, u);
    } else {
      var e := RunEnd(line, c);
      match Closer(line, e, e - c) {
        case Some(k) =>
          SpanStep(line, c, k);
          UnclosedAreOpen(line, k + (e - c), u);
        case None =>
          UnclosedStep(line, c);
          SpansStartLater(line, e);
          if u != c {
            UnclosedAreOpen(line, e, u);
          }
      }
    }
  }

  lemma {:induction false} DanglingIsFirst(line: Text, unclosed: seq<nat>)
    ensures match FirstDangling(line, unclosed)
            case None => forall u | u in unclosed :: !DanglesAt(line, u)
            case Some(d) => d in unclosed && DanglesAt(line, d)
  {
    if unclosed != [] {
      DanglingIsFirst(line, unclosed[1..]);
      assert unclosed == [unclosed[0]] + unclosed[1..];
    }
  }

  predicate KeepsLength(line: Text) {
    forall u | u in Unclosed(line, 0) :: !DanglesAt(line, u)
  }

  // The mask blanks or keeps each unit of the line. It keeps the length exactly when no
  // unclosed run dangles; otherwise it adds as many blanks as the dangling run is long.
  lemma MaskIsPointwise(line: Text, chars: Text)
    requires MaskOf(line, chars)
    ensures |chars| >= |line|
    ensures forall i: nat | i < |chars| :: chars[i] == SPACE || (i < |line| && chars[i] == line[i])
    ensures |chars| == |line| <==> KeepsLength(line)
    ensures KeepsLength(line) ==>
              forall i: nat | i < |line| :: chars[i] == if InSpan(Spans(line, 0), i) then SPACE else line[i]
  {
    DanglingIsFirst(line, Unclosed(line, 0));
    if Dangling(line).Some? {
      UnclosedAreOpen(line, 0, Dangling(line).value);
    }
  }

  // A line that does not end in a backtick keeps its length.
  lemma OnlyTrailingTicksDangle(line: Text)
    requires !(line != [] && line[|line| - 1] == TICK)
    ensures KeepsLength(line)
  {
    forall u | u in Unclosed(line, 0) ensures !DanglesAt(line, u) {
      UnclosedAreOpen(line, 0, u);
      assert TailStart(line, |line|) == |line|;
      if RunEnd(line, u) == |line| {
        TickBefore(line, u, |line|, |line|);
      }
    }
  }

  // A letter and `n` backticks.
  function OpenEnded(n: nat): Text {
    ['a' as int] + seq(n, _ => TICK)
  }

  // A line that does grow: its unclosed run at the end is counted twice.
  lemma TrailingRunGrows(n: nat, chars: Text)
    requires n > 0 && MaskOf(OpenEnded(n), chars)
    ensures !KeepsLength(OpenEnded(n)) && chars == ['a' as int] + Blanks(2 * n)
  {
    var line := OpenEnded(n);
    TrailingRunDangles(n);
    hide Spans, Unclosed, Dangles, RunEnd, OpensCode, KeepsLength;
    assert !InSpan([], 0);
  }

  lemma TrailingRunDangles(n: nat)
    requires n > 0
    ensures Spans(OpenEnded(n), 0) == [] && Unclosed(OpenEnded(n), 0) == [1]
    ensures RunEnd(OpenEnded(n), 1) == n + 1 && Dangling(OpenEnded(n)) == Some(1)
    ensures !KeepsLength(OpenEnded(n))
  {
    var line := OpenEnded(n);
    assert !IsTick(line, 0) && IsTick(line, 1) && Slashes(line, 1) == 0;
    OtherStep(line, 0);
    RunToEnd(line, 1);
    hide RunEnd, Spans, Unclosed, Closer;
    assert Closer(line, n + 1, n).None? by {
      NoRoom(line, n);
    }
    UnclosedStep(line, 1);
    assert !OpensCode(line, n + 1);
    OtherStep(line, n + 1);
    assert 1 in Unclosed(line, 0);
  }

  lemma {:induction false} RunToEnd(line: Text, c: nat)
    requires c <= |line| && Ticks(line, c, |line|)
    ensures RunEnd(line, c) == |line|
    decreases |line| - c
  {
    if c < |line| {
      assert IsTick(line, c);
      RunToEnd(line, c + 1);
    }
  }

  lemma NoRoom(line: Text, r: nat)
    requires r > 0
    ensures Closer(line, |line|, r).None?
  {
  }
}
