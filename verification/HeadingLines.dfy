// Which lines are headings: the pattern of the documentation gate, as the library matches
// it. A run of one to six number signs, blanks, a title, and perhaps closing signs.
module HeadingLines {
  import opened Options
  import opened TextOffsets
  import opened Lines
  import opened Headings
  import opened MarkdownMasks

  const SIGN: Unit := '#' as int

  predicate IsBlankUnit(u: Unit) {
    u == SPACE || u == MarkdownMasks.TAB
  }

  // Where the blanks that start at `c` end.
  function BlankRun(line: Text, c: nat): (e: nat)
    requires c <= |line|
    ensures c <= e <= |line|
    decreases |line| - c
  {
    if c < |line| && IsBlankUnit(line[c]) then BlankRun(line, c + 1) else c
  }

  // From `t` on there are only blanks, number signs and blanks.
  predicate TailFrom(line: Text, t: nat)
    requires t <= |line|
  {
    BlankRun(line, RunOf(line, SIGN, BlankRun(line, t))) == |line|
  }

  // The first place from `t` on where the title can end.
  function TitleEnd(line: Text, t: nat): (e: nat)
    requires t <= |line|
    ensures t <= e <= |line|
    decreases |line| - t
  {
    if t == |line| || TailFrom(line, t) then t else TitleEnd(line, t + 1)
  }

  // The level and the title. Of a line of signs and blanks only, the last blank is the title.
  function HeadingOf(line: Text): Option<Head> {
    var n := RunOf(line, SIGN, 0);
    var e := BlankRun(line, n);
    if n == 0 || n > 6 || e == n then None
    else if e == |line| then if e - n >= 2 then Some(Head(n, [line[e - 1]])) else None
    else if exists i | e <= i < |line| :: EndsLine(line[i]) then None
    else Some(Head(n, line[e..TitleEnd(line, e + 1)]))
  }

  // ----- the pattern

  predicate Blank(u: Unit) {
    u == 32 || u == 9
  }

  // Blanks, then number signs, then blanks.
  ghost predicate ClosingForm(s: Text) {
    exists i, j | 0 <= i <= j <= |s| :: ClosingParts(s, i, j)
  }

  predicate ClosingParts(s: Text, i: int, j: int)
    requires 0 <= i <= j <= |s|
  {
    && (forall k | 0 <= k < i :: Blank(s[k])) && (forall k | i <= k < j :: s[k] == 35)
    && forall k | j <= k < |s| :: Blank(s[k])
  }

  // A way to read the line as `n` signs, `b` blanks and a title of `t` units.
  ghost predicate Fits(line: Text, n: nat, b: nat, t: nat) {
    && 1 <= n <= 6 && b >= 1 && t >= 1 && n + b + t <= |line|
    && (forall k | 0 <= k < n :: line[k] == 35) && (forall k | n <= k < n + b :: Blank(line[k]))
    && (forall k | n + b <= k < n + b + t ::
          line[k] != 10 && line[k] != 13 && line[k] != 0x2028 && line[k] != 0x2029)
    && ClosingForm(line[n + b + t..])
  }

  // The one that is tried first: most signs, then most blanks, then the shortest title.
  ghost predicate Preferred(line: Text, n: nat, b: nat, t: nat) {
    && Fits(line, n, b, t)
    && forall n': nat, b': nat, t': nat | Fits(line, n', b', t') ::
         n' < n || (n' == n && (b' < b || (b' == b && t <= t')))
  }

  // ----- the runs

  lemma {:induction false} BlankRunHas(line: Text, c: nat)
    requires c <= |line|
    ensures forall k | c <= k < BlankRun(line, c) :: Blank(line[k])
    ensures BlankRun(line, c) < |line| ==> !Blank(line[BlankRun(line, c)])
    decreases |line| - c
  {
    if c < |line| && IsBlankUnit(line[c]) {
      BlankRunHas(line, c + 1);
    }
  }

  // The tail test reads the closing form from the front.
  lemma TailIsClosing(line: Text, t: nat)
    requires t <= |line|
    ensures TailFrom(line, t) <==> ClosingForm(line[t..])
  {
    var a := BlankRun(line, t);
    var h := RunOf(line, SIGN, a);
    var b := BlankRun(line, h);
    BlankRunHas(line, t);
    RunHas(line, SIGN, a);
    BlankRunHas(line, h);
    var s := line[t..];
    if b == |line| {
      assert ClosingParts(s, a - t, h - t);
    }
    if ClosingForm(s) {
      var i, j :| 0 <= i <= j <= |s| && ClosingParts(s, i, j);
      ClosingReaches(line, t, i, j, a, h, b);
    }
  }

  lemma ClosingReaches(line: Text, t: nat, i: nat, j: nat, a: nat, h: nat, b: nat)
    requires t <= a <= h <= b <= |line| && i <= j <= |line| - t && ClosingParts(line[t..], i, j)
    requires (forall k | t <= k < a :: Blank(line[k])) && (a < |line| ==> !Blank(line[a]))
    requires (forall k | a <= k < h :: line[k] == 35) && (h < |line| ==> line[h] != 35)
    requires (forall k | h <= k < b :: Blank(line[k])) && (b < |line| ==> !Blank(line[b]))
    ensures b == |line|
  {
    var s := line[t..];
    assert forall k | t <= k < |line| :: line[k] == s[k - t];
    assert i + t <= a;
    assert j + t <= h;
  }

  lemma {:induction false} TitleEndIsFirst(line: Text, t: nat)
    requires t <= |line|
    ensures ClosingForm(line[TitleEnd(line, t)..])
    ensures forall k | t <= k < TitleEnd(line, t) :: !ClosingForm(line[k..])
    decreases |line| - t
  {
    TailIsClosing(line, t);
    if t < |line| && !TailFrom(line, t) {
      TitleEndIsFirst(line, t + 1);
    } else if t == |line| {
      assert ClosingParts(line[t..], 0, 0);
    }
  }

  // ----- the reading that is found is the preferred one

  // Any reading takes all the signs.
  lemma SignsAreTaken(line: Text, n: nat, b: nat, t: nat)
    requires Fits(line, n, b, t)
    ensures RunOf(line, SIGN, 0) == n && n + b <= BlankRun(line, n)
  {
    RunIs(line, SIGN, 0, n);
    BlankRunHas(line, n);
    assert forall k | n <= k < n + b :: Blank(line[k]);
  }

  lemma HeadingFits(line: Text, n: nat, e: nat)
    requires n == RunOf(line, SIGN, 0) && 1 <= n <= 6 && e == BlankRun(line, n) && n < e < |line|
    requires forall i | e <= i < |line| :: !EndsLine(line[i])
    ensures Preferred(line, n, e - n, TitleEnd(line, e + 1) - e)
  {
    hide ClosingForm, BlankRun, RunOf, TitleEnd, TailFrom;
    RunHas(line, SIGN, 0);
    BlankRunHas(line, n);
    TitleEndIsFirst(line, e + 1);
    var t := TitleEnd(line, e + 1) - e;
    assert Fits(line, n, e - n, t);
    forall n': nat, b': nat, t': nat | Fits(line, n', b', t')
      ensures n' == n && (b' < e - n || (b' == e - n && t <= t'))
    {
      SignsAreTaken(line, n', b', t');
      if b' == e - n {
        NotShorter(line, e, t');
      }
    }
  }

  lemma NotShorter(line: Text, e: nat, t: nat)
    requires t >= 1 && e + t <= |line| && ClosingForm(line[e + t..])
    ensures TitleEnd(line, e + 1) <= e + t
  {
    TitleEndIsFirst(line, e + 1);
  }

  lemma AllBlankFits(line: Text, n: nat)
    requires n == RunOf(line, SIGN, 0) && 1 <= n <= 6 && BlankRun(line, n) == |line| && |line| - n >= 2
    ensures Preferred(line, n, |line| - n - 1, 1)
  {
    RunHas(line, SIGN, 0);
    BlankRunHas(line, n);
    assert ClosingParts(line[|line|..], 0, 0);
    assert Fits(line, n, |line| - n - 1, 1);
    forall n': nat, b': nat, t': nat | Fits(line, n', b', t') ensures n' == n && b' + t' <= |line| - n {
      SignsAreTaken(line, n', b', t');
    }
  }

  // A line terminator after the blanks spoils every reading.
  lemma TerminatorSpoils(line: Text, i: nat, n: nat, b: nat, t: nat)
    requires Fits(line, n, b, t) && BlankRun(line, n) <= i < |line|
    ensures !EndsLine(line[i])
  {
    SignsAreTaken(line, n, b, t);
    if i >= n + b + t {
      var s := line[n + b + t..];
      var p, q :| 0 <= p <= q <= |s| && ClosingParts(s, p, q);
      assert s[i - (n + b + t)] == line[i];
    }
  }

  lemma FitsMeansHeading(line: Text, n: nat, b: nat, t: nat)
    requires Fits(line, n, b, t)
    ensures HeadingOf(line).Some?
  {
    SignsAreTaken(line, n, b, t);
    var e := BlankRun(line, n);
    forall i | e <= i < |line| ensures !EndsLine(line[i]) {
      TerminatorSpoils(line, i, n, b, t);
    }
  }

  lemma PreferredIsOne(line: Text, n: nat, b: nat, t: nat, m: nat, c: nat, u: nat)
    requires Preferred(line, n, b, t) && Preferred(line, m, c, u)
    ensures n == m && b == c && t == u
  {
    hide Fits;
  }

  lemma HeadingReads(line: Text) returns (n: nat, b: nat, t: nat)
    requires HeadingOf(line).Some?
    ensures Preferred(line, n, b, t) && n + b + t <= |line| && HeadingOf(line).value == Head(n, line[n + b..n + b + t])
  {
    hide Preferred, EndsLine, BlankRun, RunOf, TitleEnd;
    n := RunOf(line, SIGN, 0);
    var e := BlankRun(line, n);
    if e < |line| {
      HeadingFits(line, n, e);
      b, t := e - n, TitleEnd(line, e + 1) - e;
    } else {
      AllBlankFits(line, n);
      b, t := e - n - 1, 1;
      assert line[e - 1..e] == [line[e - 1]];
    }
  }

  // A line is a heading exactly if it can be read as one, and its level and title are
  // those of the reading that is tried first.
  lemma HeadingIsPreferred(line: Text, head: Head)
    ensures HeadingOf(line) == Some(head) <==> exists n: nat, b: nat, t: nat :: ReadsHead(line, n, b, t, head)
  {
    hide HeadingOf, Preferred;
    if HeadingOf(line).Some? {
      var n, b, t := HeadingReads(line);
      assert ReadsHead(line, n, b, t, HeadingOf(line).value);
    }
    if n: nat, b: nat, t: nat :| ReadsHead(line, n, b, t, head) {
      PreferredFits(line, n, b, t);
      FitsMeansHeading(line, n, b, t);
      var m, c, u := HeadingReads(line);
      PreferredIsOne(line, n, b, t, m, c, u);
    }
  }

  ghost predicate ReadsHead(line: Text, n: nat, b: nat, t: nat, head: Head) {
    Preferred(line, n, b, t) && n + b + t <= |line| && head == Head(n, line[n + b..n + b + t])
  }

  lemma PreferredFits(line: Text, n: nat, b: nat, t: nat)
    requires Preferred(line, n, b, t)
    ensures Fits(line, n, b, t)
  {
  }
}
