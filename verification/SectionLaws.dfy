// The masking of the three Git sections once more, as a layout of the whole payload with
// its headings and sentinels written out; and that it is the mask of `SectionMask`.
module SectionLaws {
  import opened SectionMask

  predicate SpaceChar(c: char) {
    c == ' ' || c == 9 as char || c == 10 as char || c == 11 as char || c == 12 as char || c == 13 as char
  }

  predicate Empty(line: string) {
    forall i | 0 <= i < |line| :: SpaceChar(line[i])
  }

  predicate AnyHeading(line: string) {
    "## " <= line
  }

  predicate AnyTarget(line: string) {
    || line == "## Commits on this branch (not yet on main)"
    || line == "## Files changed vs main"
    || line == "## Uncommitted changes"
  }

  // A body up to its last line with text, the empty lines behind it, and what follows up
  // to the next of the three headings.
  datatype Piece = Piece(text: seq<string>, blanks: seq<string>, after: seq<string>)

  predicate PieceOk(p: Piece) {
    && p.text != [] && !Empty(p.text[|p.text| - 1])
    && (forall i | 0 <= i < |p.text| :: !AnyHeading(p.text[i]))
    && (forall i | 0 <= i < |p.blanks| :: Empty(p.blanks[i]))
    && (forall i | 0 <= i < |p.after| :: !AnyTarget(p.after[i]))
    && (p.after != [] ==> AnyHeading(p.after[0]))
  }

  function Whole(heading: string, p: Piece): seq<string> {
    [heading] + p.text + p.blanks + p.after
  }

  function Emptied(heading: string, sentinel: string, p: Piece): seq<string> {
    [heading] + [sentinel] + p.blanks + p.after
  }

  predicate PartsOk(before: seq<string>, p: Piece, q: Piece, r: Piece) {
    && (forall i | 0 <= i < |before| :: !AnyTarget(before[i]))
    && PieceOk(p) && PieceOk(q) && PieceOk(r)
  }

  function Payload(before: seq<string>, p: Piece, q: Piece, r: Piece): seq<string> {
    before + Whole("## Commits on this branch (not yet on main)", p)
    + Whole("## Files changed vs main", q) + Whole("## Uncommitted changes", r)
  }

  function Result(before: seq<string>, p: Piece, q: Piece, r: Piece): seq<string> {
    before
    + Emptied("## Commits on this branch (not yet on main)", "[[GIT_CONTEXT_BODY_COMMITS]]", p)
    + Emptied("## Files changed vs main", "[[GIT_CONTEXT_BODY_DIFFSTAT]]", q)
    + Emptied("## Uncommitted changes", "[[GIT_CONTEXT_BODY_UNCOMMITTED]]", r)
  }

  // No line holds one of the three sentinels anywhere.
  ghost predicate Unmarked(lines: seq<string>) {
    forall i | 0 <= i < |lines| ::
      && !Within(lines[i], "[[GIT_CONTEXT_BODY_COMMITS]]")
      && !Within(lines[i], "[[GIT_CONTEXT_BODY_DIFFSTAT]]")
      && !Within(lines[i], "[[GIT_CONTEXT_BODY_UNCOMMITTED]]")
  }

  ghost predicate Within(line: string, w: string) {
    exists front, back :: line == front + w + back
  }

  // ----- the words are the same

  lemma EmptyIsBlank(line: string)
    ensures Empty(line) <==> Blank(line)
  {
  }

  lemma HeadingsAgree(line: string)
    ensures AnyHeading(line) <==> IsHeading(line)
  {
    assert "## "[0] == '#' && "## "[1] == '#' && "## "[2] == ' ';
    if IsHeading(line) {
      assert line[..3] == "## ";
    }
  }

  lemma TargetsAgree(line: string)
    ensures AnyTarget(line) <==> TargetId(line) != 0
    ensures line == "## Commits on this branch (not yet on main)" <==> TargetId(line) == 1
    ensures line == "## Files changed vs main" <==> TargetId(line) == 2
    ensures line == "## Uncommitted changes" <==> TargetId(line) == 3
  {
  }

  lemma WordsAgree()
    ensures forall line :: Empty(line) <==> Blank(line)
    ensures forall line :: AnyHeading(line) <==> IsHeading(line)
    ensures forall line :: AnyTarget(line) <==> TargetId(line) != 0
  {
    forall line ensures Empty(line) <==> Blank(line) {
      EmptyIsBlank(line);
    }
    forall line ensures AnyHeading(line) <==> IsHeading(line) {
      HeadingsAgree(line);
    }
    forall line ensures AnyTarget(line) <==> TargetId(line) != 0 {
      TargetsAgree(line);
    }
  }

  lemma FixedWords()
    ensures HeadingOf(1) == "## Commits on this branch (not yet on main)"
    ensures HeadingOf(2) == "## Files changed vs main" && HeadingOf(3) == "## Uncommitted changes"
    ensures SentinelFor(1) == "[[GIT_CONTEXT_BODY_COMMITS]]" && SentinelFor(2) == "[[GIT_CONTEXT_BODY_DIFFSTAT]]"
    ensures SentinelFor(3) == "[[GIT_CONTEXT_BODY_UNCOMMITTED]]"
  {
  }

  // ----- pieces are sections

  function SecOf(id: nat, p: Piece): Sec {
    Sec(id, p.text + p.blanks, p.after)
  }

  lemma PieceIsSec(id: nat, p: Piece)
    requires 1 <= id <= 3 && PieceOk(p)
    ensures SecOk(SecOf(id, p)) && HasText(SecOf(id, p).body) && Trail(SecOf(id, p).body) == p.blanks
  {
    WordsAgree();
    hide Empty, Blank, AnyHeading, AnyTarget, TargetId;
    var body := p.text + p.blanks;
    TrailStartsAfterText(body, |p.text|);
    forall i | 0 <= i < |p.blanks| ensures !AnyHeading(p.blanks[i]) {
      EmptyIsNoHeading(p.blanks[i]);
    }
    hide IsHeading;
  }

  lemma EmptyIsNoHeading(line: string)
    requires Empty(line)
    ensures !AnyHeading(line)
  {
    assert "## "[0] == '#';
    assert line != [] ==> SpaceChar(line[0]);
  }

  lemma SecIsPiece(s: Sec) returns (p: Piece)
    requires SecOk(s) && HasText(s.body)
    ensures PieceOk(p) && s == SecOf(s.id, p)
  {
    WordsAgree();
    hide Empty, Blank, AnyHeading, AnyTarget, TargetId, IsHeading;
    var last := |s.body|;
    while last > 0 && Blank(s.body[last - 1])
      invariant 0 <= last <= |s.body|
      invariant forall i | last <= i < |s.body| :: Blank(s.body[i])
    {
      last := last - 1;
    }
    TrailStartsAfterText(s.body, last);
    p := Piece(s.body[..last], s.body[last..], s.after);
    assert s.body == p.text + p.blanks;
  }

  function PartsOf(before: seq<string>, p: Piece, q: Piece, r: Piece): Parts {
    Parts(before, [SecOf(1, p), SecOf(2, q), SecOf(3, r)])
  }

  lemma ThreeAssembled(s: Sec, t: Sec, u: Sec)
    ensures AssembleSecs([s, t, u])
            == [HeadingOf(s.id)] + s.body + s.after + ([HeadingOf(t.id)] + t.body + t.after
               + ([HeadingOf(u.id)] + u.body + u.after))
  {
    hide HeadingOf;
    assert [s, t, u][1..] == [t, u] && [t, u][1..] == [u] && [u][1..] == [];
    assert AssembleSecs([u]) == [HeadingOf(u.id)] + u.body + u.after;
    assert AssembleSecs([t, u]) == [HeadingOf(t.id)] + t.body + t.after + AssembleSecs([u]);
  }

  lemma PayloadIsAssembled(before: seq<string>, p: Piece, q: Piece, r: Piece)
    ensures Assemble(PartsOf(before, p, q, r)) == Payload(before, p, q, r)
  {
    FixedWords();
    ThreeAssembled(SecOf(1, p), SecOf(2, q), SecOf(3, r));
    hide HeadingOf, AssembleSecs;
    var c, f, u := HeadingOf(1), HeadingOf(2), HeadingOf(3);
    assert [c] + (p.text + p.blanks) + p.after == Whole(c, p);
    assert [f] + (q.text + q.blanks) + q.after == Whole(f, q);
    assert [u] + (r.text + r.blanks) + r.after == Whole(u, r);
    hide Whole;
    assert before + (Whole(c, p) + (Whole(f, q) + Whole(u, r))) == before + Whole(c, p) + Whole(f, q) + Whole(u, r);
  }

  lemma SecIsEmptied(id: nat, p: Piece)
    requires 1 <= id <= 3 && PieceOk(p)
    ensures var s := HollowSec(SecOf(id, p));
      s.id == id && [HeadingOf(id)] + s.body + s.after == Emptied(HeadingOf(id), SentinelFor(id), p)
  {
    PieceIsSec(id, p);
    hide HeadingOf, SentinelFor, Trail, PieceOk;
    assert [HeadingOf(id)] + ([SentinelFor(id)] + p.blanks) == [HeadingOf(id)] + [SentinelFor(id)] + p.blanks;
  }

  lemma ThreeHollow(before: seq<string>, s: Sec, t: Sec, u: Sec)
    ensures Hollow(Parts(before, [s, t, u])) == Parts(before, [HollowSec(s), HollowSec(t), HollowSec(u)])
  {
    hide HollowSec;
    assert HollowSecs([s, t, u]) == [HollowSec(s), HollowSec(t), HollowSec(u)];
  }

  lemma Regroup(b: seq<string>, x: seq<string>, y: seq<string>, z: seq<string>)
    ensures b + (x + (y + z)) == b + x + y + z
  {
  }

  lemma ResultIsMasked(before: seq<string>, p: Piece, q: Piece, r: Piece)
    requires PartsOk(before, p, q, r)
    ensures Assemble(Hollow(PartsOf(before, p, q, r))) == Result(before, p, q, r)
  {
    hide HeadingOf, SentinelFor, Trail, PieceOk, HollowSec, HollowSecs, AssembleSecs, Emptied, Hollow;
    FixedWords();
    SecIsEmptied(1, p);
    SecIsEmptied(2, q);
    SecIsEmptied(3, r);
    var s, t, v := SecOf(1, p), SecOf(2, q), SecOf(3, r);
    ThreeHollow(before, s, t, v);
    ThreeAssembled(HollowSec(s), HollowSec(t), HollowSec(v));
    Regroup(before, Emptied(HeadingOf(1), SentinelFor(1), p), Emptied(HeadingOf(2), SentinelFor(2), q),
            Emptied(HeadingOf(3), SentinelFor(3), r));
  }

  // ----- the laws

  // A payload laid out in three pieces is accepted, and its mask is the same layout with
  // each piece's text replaced by its sentinel.
  lemma LayoutIsMasked(before: seq<string>, p: Piece, q: Piece, r: Piece)
    requires PartsOk(before, p, q, r)
    ensures Accepted(Parse(Payload(before, p, q, r)))
    ensures Masked(Payload(before, p, q, r)) == Result(before, p, q, r)
  {
    var parts := PartsOf(before, p, q, r);
    PieceIsSec(1, p);
    PieceIsSec(2, q);
    PieceIsSec(3, r);
    PayloadIsAssembled(before, p, q, r);
    ResultIsMasked(before, p, q, r);
    assert WellParted(parts) by {
      WordsAgree();
      hide AnyTarget, TargetId, SecOk, PieceOk;
    }
    ParseOfAssemble(parts);
  }

  // Every accepted payload is laid out so.
  lemma AcceptedIsLaidOut(lines: seq<string>)
      returns (before: seq<string>, p: Piece, q: Piece, r: Piece)
    requires Accepted(Parse(lines))
    ensures PartsOk(before, p, q, r) && lines == Payload(before, p, q, r)
  {
    AssembleOfParse(lines);
    var parts := Parse(lines);
    hide Parse, Trail, HasText;
    assert SecOk(parts.secs[0]) && SecOk(parts.secs[1]) && SecOk(parts.secs[2]);
    before := parts.before;
    p := SecIsPiece(parts.secs[0]);
    q := SecIsPiece(parts.secs[1]);
    r := SecIsPiece(parts.secs[2]);
    assert parts == PartsOf(before, p, q, r);
    PayloadIsAssembled(before, p, q, r);
    WordsAgree();
    hide AnyTarget, TargetId, SecOk, PieceOk;
  }

  lemma MarkIsContained(line: string, w: string)
    ensures Contains(line, w) <==> Within(line, w)
  {
    if Contains(line, w) {
      var i :| 0 <= i <= |line| && StartsAt(line, i, w);
      assert line == line[..i] + w + line[i + |w|..];
    }
    if front, back :| line == front + w + back {
      assert StartsAt(line, |front|, w);
    }
  }

  lemma UnmarkedIsNoSentinel(lines: seq<string>)
    ensures Unmarked(lines) <==> NoSentinel(lines)
  {
    FixedWords();
    hide SentinelFor, Contains, Within;
    forall i, id | 0 <= i < |lines| && 1 <= id <= 3
      ensures Contains(lines[i], SentinelFor(id)) <==> Within(lines[i], SentinelFor(id))
    {
      MarkIsContained(lines[i], SentinelFor(id));
    }
    if Unmarked(lines) {
      forall i, id | 0 <= i < |lines| && 1 <= id <= 3 ensures !Contains(lines[i], SentinelFor(id)) {
        assert id == 1 || id == 2 || id == 3;
      }
    }
    if NoSentinel(lines) {
      forall i | 0 <= i < |lines|
        ensures !Within(lines[i], SentinelFor(1)) && !Within(lines[i], SentinelFor(2))
        ensures !Within(lines[i], SentinelFor(3))
      {
        assert !Contains(lines[i], SentinelFor(1)) && !Contains(lines[i], SentinelFor(2));
        assert !Contains(lines[i], SentinelFor(3));
      }
    }
  }

  // The payloads that are masked are exactly the unmarked ones that are laid out so.
  lemma MaskedMeansLaidOut(lines: seq<string>)
    ensures NoSentinel(lines) && Accepted(Parse(lines))
      <==> Unmarked(lines) && exists before, p, q, r :: PartsOk(before, p, q, r) && lines == Payload(before, p, q, r)
  {
    hide PartsOk, Payload, Unmarked, NoSentinel, Accepted, Parse;
    UnmarkedIsNoSentinel(lines);
    if Accepted(Parse(lines)) {
      var before, p, q, r := AcceptedIsLaidOut(lines);
    }
    if before, p, q, r :| PartsOk(before, p, q, r) && lines == Payload(before, p, q, r) {
      LayoutIsMasked(before, p, q, r);
    }
  }
}
