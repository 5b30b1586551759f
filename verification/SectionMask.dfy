// The masking of the three Git sections of a payload, line by line.
module SectionMask {

  // ----- lines

  function TargetId(line: string): (id: nat)
    ensures id <= 3
  {
    if line == "## Commits on this branch (not yet on main)" then 1
    else if line == "## Files changed vs main" then 2
    else if line == "## Uncommitted changes" then 3
    else 0
  }

  function HeadingOf(id: nat): (line: string)
    ensures 1 <= id <= 3 ==> TargetId(line) == id
    ensures IsHeading(line)
  {
    if id == 1 then "## Commits on this branch (not yet on main)"
    else if id == 2 then "## Files changed vs main"
    else "## Uncommitted changes"
  }

  function SentinelFor(id: nat): (line: string)
    ensures !Blank(line) && !IsHeading(line)
  {
    var line := if id == 1 then "[[GIT_CONTEXT_BODY_COMMITS]]"
                else if id == 2 then "[[GIT_CONTEXT_BODY_DIFFSTAT]]"
                else "[[GIT_CONTEXT_BODY_UNCOMMITTED]]";
    assert line[0] == '[';
    line
  }

  predicate IsHeading(line: string) {
    |line| >= 3 && line[0] == '#' && line[1] == '#' && line[2] == ' '
  }

  predicate White(c: char) {
    c == ' ' || '\t' <= c <= '\r'
  }

  predicate Blank(line: string) {
    forall i | 0 <= i < |line| :: White(line[i])
  }

  lemma TargetsAreHeadings(line: string)
    ensures TargetId(line) != 0 ==> line == HeadingOf(TargetId(line))
  {
  }

  // ----- specification

  // The blank lines at the end.
  function Trail(body: seq<string>): seq<string> {
    if body == [] || !Blank(body[|body| - 1]) then [] else Trail(body[..|body| - 1]) + [body[|body| - 1]]
  }

  predicate HasText(body: seq<string>) {
    exists i | 0 <= i < |body| :: !Blank(body[i])
  }

  // The lines before the next heading.
  function Body(lines: seq<string>): (body: seq<string>)
    ensures body <= lines
    ensures |body| < |lines| ==> IsHeading(lines[|body|])
    ensures forall i | 0 <= i < |body| :: !IsHeading(body[i])
  {
    if lines == [] || IsHeading(lines[0]) then [] else [lines[0]] + Body(lines[1..])
  }

  // A target section: its body, and what follows up to the next target.
  datatype Sec = Sec(id: nat, body: seq<string>, after: seq<string>)
  datatype Parts = Parts(before: seq<string>, secs: seq<Sec>)

  function Parse(lines: seq<string>): Parts
    decreases |lines|
  {
    if lines == [] then Parts([], [])
    else if TargetId(lines[0]) == 0 then
      var rest := Parse(lines[1..]);
      Parts([lines[0]] + rest.before, rest.secs)
    else
      var body := Body(lines[1..]);
      var rest := Parse(lines[1 + |body|..]);
      Parts([], [Sec(TargetId(lines[0]), body, rest.before)] + rest.secs)
  }

  predicate NoTarget(lines: seq<string>) {
    forall i | 0 <= i < |lines| :: TargetId(lines[i]) == 0
  }

  predicate NoHeading(lines: seq<string>) {
    forall i | 0 <= i < |lines| :: !IsHeading(lines[i])
  }

  predicate SecOk(s: Sec) {
    && 1 <= s.id <= 3 && NoHeading(s.body) && NoTarget(s.after)
    && (s.after != [] ==> IsHeading(s.after[0]))
  }

  ghost predicate WellParted(p: Parts) {
    NoTarget(p.before) && forall i | 0 <= i < |p.secs| :: SecOk(p.secs[i])
  }

  function AssembleSecs(secs: seq<Sec>): seq<string> {
    if secs == [] then []
    else [HeadingOf(secs[0].id)] + secs[0].body + secs[0].after + AssembleSecs(secs[1..])
  }

  function Assemble(p: Parts): seq<string> {
    p.before + AssembleSecs(p.secs)
  }

  // The payload has the three targets, once each and in order, each with a body.
  predicate Accepted(p: Parts) {
    && |p.secs| == 3 && p.secs[0].id == 1 && p.secs[1].id == 2 && p.secs[2].id == 3
    && HasText(p.secs[0].body) && HasText(p.secs[1].body) && HasText(p.secs[2].body)
  }

  // A section whose body is its sentinel, with the blank lines it ended in.
  function HollowSec(s: Sec): Sec {
    s.(body := [SentinelFor(s.id)] + Trail(s.body))
  }

  function HollowSecs(secs: seq<Sec>): (hollow: seq<Sec>)
    ensures |hollow| == |secs| && forall i | 0 <= i < |secs| :: hollow[i] == HollowSec(secs[i])
  {
    if secs == [] then [] else [HollowSec(secs[0])] + HollowSecs(secs[1..])
  }

  function Hollow(p: Parts): Parts {
    Parts(p.before, HollowSecs(p.secs))
  }

  // ----- splitting and assembling are inverse

  lemma {:induction false} AssembleOfParse(lines: seq<string>)
    ensures WellParted(Parse(lines)) && Assemble(Parse(lines)) == lines
    decreases |lines|
  {
    hide TargetId, IsHeading, HeadingOf, WellParted, Parse, Assemble, Body, NoHeading;
    if lines == [] {
      ParseNothing();
      NothingIsWellParted();
    } else if TargetId(lines[0]) == 0 {
      AssembleOfParse(lines[1..]);
      PrependOther(lines[0], Parse(lines[1..]));
      ParseAtOther(lines);
      assert [lines[0]] + lines[1..] == lines;
    } else {
      var body := Body(lines[1..]);
      var tail := lines[1..][|body|..];
      AssembleOfParse(tail);
      AfterBody(lines[1..]);
      AfterStartsAtHeading(tail);
      PrependTarget(lines[0], body, Parse(tail));
      ParseAtTarget(lines);
      assert lines[1..] == body + tail;
      assert [lines[0]] + body + tail == [lines[0]] + (body + tail) == lines;
    }
  }

  lemma NothingIsWellParted()
    ensures WellParted(Parts([], [])) && Assemble(Parts([], [])) == []
  {
  }

  // The two cases of the split, unfolded once.
  lemma ParseAtOther(lines: seq<string>)
    requires lines != [] && TargetId(lines[0]) == 0
    ensures Parse(lines) == Parts([lines[0]] + Parse(lines[1..]).before, Parse(lines[1..]).secs)
  {
    hide TargetId;
  }

  lemma ParseAtTarget(lines: seq<string>)
    requires lines != [] && TargetId(lines[0]) != 0
    ensures var body := Body(lines[1..]);
            var rest := Parse(lines[1..][|body|..]);
            Parse(lines) == Parts([], [Sec(TargetId(lines[0]), body, rest.before)] + rest.secs)
  {
    hide TargetId, Body;
    var body := Body(lines[1..]);
    assert lines[1..][|body|..] == lines[1 + |body|..];
  }

  lemma AfterBody(lines: seq<string>)
    ensures NoHeading(Body(lines))
    ensures lines[|Body(lines)|..] != [] ==> IsHeading(lines[|Body(lines)|..][0])
  {
    hide IsHeading;
  }

  lemma PrependOther(line: string, p: Parts)
    requires TargetId(line) == 0 && WellParted(p)
    ensures WellParted(Parts([line] + p.before, p.secs))
    ensures Assemble(Parts([line] + p.before, p.secs)) == [line] + Assemble(p)
  {
    hide TargetId;
  }

  lemma PrependTarget(line: string, body: seq<string>, p: Parts)
    requires TargetId(line) != 0 && NoHeading(body) && WellParted(p) && (p.before != [] ==> IsHeading(p.before[0]))
    ensures WellParted(Parts([], [Sec(TargetId(line), body, p.before)] + p.secs))
    ensures Assemble(Parts([], [Sec(TargetId(line), body, p.before)] + p.secs)) == [line] + body + Assemble(p)
  {
    TargetsAreHeadings(line);
    hide TargetId, IsHeading, HeadingOf;
    var s := Sec(TargetId(line), body, p.before);
    assert SecOk(s);
    assert ([s] + p.secs)[1..] == p.secs;
  }

  lemma AfterStartsAtHeading(lines: seq<string>)
    requires lines != [] ==> IsHeading(lines[0])
    ensures Parse(lines).before != [] ==> IsHeading(Parse(lines).before[0])
  {
    hide TargetId, IsHeading;
  }

  lemma {:induction false} ParseOfAssemble(p: Parts)
    requires WellParted(p)
    ensures Parse(Assemble(p)) == p
    decreases |p.secs|, |p.before|
  {
    hide TargetId, IsHeading, HeadingOf, Parse;
    if p.before != [] {
      var q := Parts(p.before[1..], p.secs);
      ParseOfAssemble(q);
      assert Assemble(p) == [p.before[0]] + Assemble(q);
      ParseOther(p.before[0], Assemble(q));
      assert [p.before[0]] + q.before == p.before;
    } else if p.secs != [] {
      var s := p.secs[0];
      var q := Parts(s.after, p.secs[1..]);
      assert SecOk(s);
      ParseOfAssemble(q);
      AssembleStartsAtHeading(q);
      assert Assemble(p) == [HeadingOf(s.id)] + s.body + Assemble(q);
      ParseTarget(s.id, s.body, Assemble(q));
      assert [s] + q.secs == p.secs;
    } else {
      ParseNothing();
    }
  }

  lemma ParseNothing()
    ensures Parse([]) == Parts([], [])
  {
  }

  lemma ParseOther(line: string, rest: seq<string>)
    requires TargetId(line) == 0
    ensures Parse([line] + rest) == Parts([line] + Parse(rest).before, Parse(rest).secs)
  {
    hide TargetId, Parse;
    assert ([line] + rest)[1..] == rest;
    ParseAtOther([line] + rest);
  }

  lemma ParseTarget(id: nat, body: seq<string>, rest: seq<string>)
    requires 1 <= id <= 3 && NoHeading(body) && (rest != [] ==> IsHeading(rest[0]))
    ensures Parse([HeadingOf(id)] + body + rest) == Parts([], [Sec(id, body, Parse(rest).before)] + Parse(rest).secs)
  {
    hide TargetId, IsHeading, HeadingOf, Parse, Body, NoHeading;
    var lines := [HeadingOf(id)] + body + rest;
    BodyOf(body, rest);
    assert lines[0] == HeadingOf(id) && lines[1..] == body + rest && (body + rest)[|body|..] == rest;
    ParseAtTarget(lines);
  }

  lemma AssembleStartsAtHeading(q: Parts)
    requires WellParted(q) && (q.before != [] ==> IsHeading(q.before[0]))
    ensures Assemble(q) != [] ==> IsHeading(Assemble(q)[0])
  {
    hide TargetId, IsHeading, HeadingOf;
    if q.before == [] && q.secs != [] {
      assert SecOk(q.secs[0]);
    }
  }

  lemma {:induction false} BodyOf(body: seq<string>, rest: seq<string>)
    requires NoHeading(body) && (rest != [] ==> IsHeading(rest[0]))
    ensures Body(body + rest) == body
  {
    hide IsHeading;
    if body != [] {
      BodyOf(body[1..], rest);
      assert (body + rest)[1..] == body[1..] + rest;
    } else {
      assert body + rest == rest;
    }
  }

  // ----- the mask forgets the bodies and nothing else

  lemma {:induction false} TrailIsBlank(body: seq<string>)
    ensures forall i | 0 <= i < |Trail(body)| :: Blank(Trail(body)[i])
  {
    if body != [] && Blank(body[|body| - 1]) {
      TrailIsBlank(body[..|body| - 1]);
    }
  }

  lemma HollowIsWellParted(p: Parts)
    requires WellParted(p)
    ensures WellParted(Hollow(p))
  {
    forall i | 0 <= i < |p.secs| ensures SecOk(HollowSec(p.secs[i])) {
      var s := p.secs[i];
      assert SecOk(s);
      TrailIsBlank(s.body);
    }
  }

  // What stays: everything outside the bodies, and the blank lines that end them.
  predicate SameOutside(p: Parts, q: Parts) {
    && p.before == q.before && |p.secs| == |q.secs|
    && forall i | 0 <= i < |p.secs| :: SameAround(p.secs[i], q.secs[i])
  }

  predicate SameAround(s: Sec, t: Sec) {
    s.id == t.id && Trail(s.body) == Trail(t.body) && s.after == t.after
  }

  function Masked(lines: seq<string>): seq<string> {
    Assemble(Hollow(Parse(lines)))
  }

  // Two payloads have the same mask exactly when they agree outside the three bodies.
  lemma SameMaskSameOutside(a: seq<string>, b: seq<string>)
    ensures Masked(a) == Masked(b) <==> SameOutside(Parse(a), Parse(b))
  {
    hide WellParted, SameAround, HollowSec, Parse, Assemble;
    var p, q := Parse(a), Parse(b);
    AssembleOfParse(a);
    AssembleOfParse(b);
    HollowIsWellParted(p);
    HollowIsWellParted(q);
    ParseOfAssemble(Hollow(p));
    ParseOfAssemble(Hollow(q));
    if Hollow(p) == Hollow(q) {
      forall i | 0 <= i < |p.secs| ensures SameAround(p.secs[i], q.secs[i]) {
        HollowKeepsAround(p.secs[i], q.secs[i]);
      }
    }
    if SameOutside(p, q) {
      forall i | 0 <= i < |p.secs| ensures HollowSec(p.secs[i]) == HollowSec(q.secs[i]) {
        AroundMakesHollow(p.secs[i], q.secs[i]);
      }
      assert HollowSecs(p.secs) == HollowSecs(q.secs);
    }
  }

  lemma AroundMakesHollow(s: Sec, t: Sec)
    requires SameAround(s, t)
    ensures HollowSec(s) == HollowSec(t)
  {
  }

  lemma HollowKeepsAround(s: Sec, t: Sec)
    requires HollowSec(s) == HollowSec(t)
    ensures SameAround(s, t)
  {
    assert HollowSec(s).body[1..] == Trail(s.body) && HollowSec(t).body[1..] == Trail(t.body);
  }

  // ----- the automaton

  // The sections are the targets from `expected` on, in order, each with a body.
  predicate Completes(secs: seq<Sec>, expected: nat) {
    && |secs| + expected == 4
    && forall i | 0 <= i < |secs| :: secs[i].id == expected + i && HasText(secs[i].body)
  }

  // What is left to decide and to write with `rest` still unread. `active` is the open
  // section, if it is not zero, and `body` is what has been read of it.
  ghost predicate Promises(lines: seq<string>, rest: seq<string>, active: nat, expected: nat, body: seq<string>,
                           output: seq<string>)
  {
    if active == 0 then
      && (Accepted(Parse(lines)) <==> Completes(Parse(rest).secs, expected))
      && Masked(lines) == output + Masked(rest)
    else
      var more := Body(rest);
      var tail := rest[|more|..];
      && (Accepted(Parse(lines)) <==> HasText(body + more) && Completes(Parse(tail).secs, expected))
      && Masked(lines) == output + [SentinelFor(active)] + Trail(body + more) + Masked(tail)
  }

  class Masker {
    var active: nat
    var expected: nat
    var seen: set<nat>
    var body: seq<string>
    var failed: bool
    var output: seq<string>

    constructor ()
      ensures active == 0 && expected == 1 && seen == {} && body == [] && !failed && output == []
    {
      active, expected, seen, body, failed, output := 0, 1, {}, [], false, [];
    }

    ghost predicate Valid()
      reads this
    {
      && 1 <= expected <= 4 && active <= 3
      && forall id :: id in seen <==> 1 <= id < expected
    }

    method FlushBody()
      modifies this`body, this`failed, this`output
      ensures failed == (old(failed) || !HasText(old(body)))
      ensures HasText(old(body)) ==> body == [] && output == old(output) + [SentinelFor(active)] + Trail(old(body))
    {
      var last := |body|;
      while last > 0 && Blank(body[last - 1])
        invariant 0 <= last <= |body|
        invariant forall i | last <= i < |body| :: Blank(body[i])
      {
        last := last - 1;
      }
      TrailStartsAfterText(body, last);
      if last == 0 {
        failed := true;
        return;
      }
      output := output + [SentinelFor(active)] + body[last..];
      body := [];
    }

    method ReadLine(line: string, ghost lines: seq<string>, ghost rest: seq<string>)
      requires Valid() && !failed && rest != [] && rest[0] == line
      requires Promises(lines, rest, active, expected, body, output)
      modifies this
      ensures failed ==> !Accepted(Parse(lines))
      ensures !failed ==> Valid() && Promises(lines, rest[1..], active, expected, body, output)
    {
      hide Promises, Accepted, Masked, Completes, TargetId, IsHeading, HasText, Trail, Parse, SentinelFor, HeadingOf;
      if active != 0 && IsHeading(line) {
        BodyEnds(lines, rest, active, expected, body, output);
        FlushBody();
        if failed {
          return;
        }
        active := 0;
      }
      var id := TargetId(line);
      if id != 0 {
        TargetsAreHeadings(line);
        TargetRead(lines, rest, active, expected, body, output);
        if id != expected || id in seen {
          failed := true;
          return;
        }
        seen := seen + {id};
        expected := expected + 1;
        output := output + [line];
        active := id;
        body := [];
        return;
      }
      if active != 0 {
        BodyRead(lines, rest, active, expected, body, output);
        body := body + [line];
        return;
      }
      OtherRead(lines, rest, active, expected, body, output);
      output := output + [line];
    }

    method Finish(ghost lines: seq<string>)
      requires Valid() && !failed && Promises(lines, [], active, expected, body, output)
      modifies this
      ensures failed <==> !Accepted(Parse(lines))
      ensures !failed ==> output == Masked(lines)
    {
      hide Promises, Accepted, Masked, HasText;
      if active != 0 {
        BodyEnds(lines, [], active, expected, body, output);
        FlushBody();
        if failed {
          return;
        }
        active := 0;
      }
      NothingLeft(lines, active, expected, body, output);
      if expected != 4 || 1 !in seen || 2 !in seen || 3 !in seen {
        failed := true;
      }
    }
  }

  lemma {:induction false} TrailStartsAfterText(body: seq<string>, last: nat)
    requires last <= |body| && forall i | last <= i < |body| :: Blank(body[i])
    requires last > 0 ==> !Blank(body[last - 1])
    ensures Trail(body) == body[last..] && (HasText(body) <==> last > 0)
  {
    hide Blank;
    if last < |body| {
      var shorter := body[..|body| - 1];
      TrailStartsAfterText(shorter, last);
      assert body[last..] == shorter[last..] + [body[|body| - 1]];
    }
  }

  lemma NothingRead(lines: seq<string>)
    ensures Promises(lines, lines, 0, 1, [], [])
  {
    hide Masked, HasText;
    var secs := Parse(lines).secs;
    if Completes(secs, 1) {
      assert secs[0].id == 1 && secs[1].id == 2 && secs[2].id == 3;
    }
  }

  // The body ends here: a heading follows, or nothing.
  lemma BodyEnds(lines: seq<string>, rest: seq<string>, active: nat, expected: nat, body: seq<string>,
                 output: seq<string>)
    requires Promises(lines, rest, active, expected, body, output) && active != 0
    requires rest != [] ==> IsHeading(rest[0])
    ensures !HasText(body) ==> !Accepted(Parse(lines))
    ensures HasText(body) ==>
              Promises(lines, rest, 0, expected, [], output + [SentinelFor(active)] + Trail(body))
  {
    hide Accepted, Masked, HasText, Trail, Completes, Parse;
    assert body + [] == body && rest[0..] == rest;
  }

  lemma BodyRead(lines: seq<string>, rest: seq<string>, active: nat, expected: nat, body: seq<string>,
                 output: seq<string>)
    requires Promises(lines, rest, active, expected, body, output) && active != 0
    requires rest != [] && !IsHeading(rest[0])
    ensures Promises(lines, rest[1..], active, expected, body + [rest[0]], output)
  {
    hide Accepted, Masked, HasText, Trail, Completes, Parse, IsHeading;
    var more := Body(rest[1..]);
    assert Body(rest) == [rest[0]] + more;
    assert body + ([rest[0]] + more) == (body + [rest[0]]) + more;
    assert rest[1..][|more|..] == rest[|more| + 1..];
  }

  lemma OtherRead(lines: seq<string>, rest: seq<string>, active: nat, expected: nat, body: seq<string>,
                  output: seq<string>)
    requires Promises(lines, rest, active, expected, body, output) && active == 0
    requires rest != [] && TargetId(rest[0]) == 0
    ensures Promises(lines, rest[1..], active, expected, body, output + [rest[0]])
  {
    hide Accepted, HasText, Trail, Completes, IsHeading, TargetId, Masked;
    MaskOther(rest);
  }

  lemma MaskOther(rest: seq<string>)
    requires rest != [] && TargetId(rest[0]) == 0
    ensures Masked(rest) == [rest[0]] + Masked(rest[1..]) && Parse(rest).secs == Parse(rest[1..]).secs
  {
    hide TargetId, WellParted, Assemble, Hollow;
    var q := Parse(rest[1..]);
    assert Parse(rest) == Parts([rest[0]] + q.before, q.secs);
    hide Parse;
    OtherInFront(rest[0], q);
  }

  lemma OtherInFront(line: string, q: Parts)
    ensures Assemble(Hollow(Parts([line] + q.before, q.secs))) == [line] + Assemble(Hollow(q))
  {
    hide HollowSecs, AssembleSecs;
  }

  lemma MaskTarget(rest: seq<string>)
    requires rest != [] && TargetId(rest[0]) != 0
    ensures var more := Body(rest[1..]);
            var tail := rest[1..][|more|..];
            && Masked(rest) == [rest[0]] + [SentinelFor(TargetId(rest[0]))] + Trail(more) + Masked(tail)
            && Parse(rest).secs == [Sec(TargetId(rest[0]), more, Parse(tail).before)] + Parse(tail).secs
  {
    hide IsHeading, WellParted, SentinelFor, HeadingOf, HollowSecs, AssembleSecs, Trail;
    TargetsAreHeadings(rest[0]);
    hide TargetId;
    var more := Body(rest[1..]);
    var tail := rest[1..][|more|..];
    assert tail == rest[1 + |more|..];
    var q := Parse(tail);
    var s := Sec(TargetId(rest[0]), more, q.before);
    assert Parse(rest) == Parts([], [s] + q.secs);
    hide Parse, Body;
    HollowNext(s, q.secs);
  }

  lemma HollowNext(s: Sec, secs: seq<Sec>)
    ensures AssembleSecs(HollowSecs([s] + secs))
            == [HeadingOf(s.id)] + [SentinelFor(s.id)] + Trail(s.body) + (s.after + AssembleSecs(HollowSecs(secs)))
  {
    hide HeadingOf, SentinelFor, Trail;
    var all := [s] + secs;
    assert all[1..] == secs;
    assert HollowSecs(all) == [HollowSec(s)] + HollowSecs(secs);
    assert HollowSecs(all)[1..] == HollowSecs(secs);
  }

  lemma TargetRead(lines: seq<string>, rest: seq<string>, active: nat, expected: nat, body: seq<string>,
                   output: seq<string>)
    requires Promises(lines, rest, active, expected, body, output) && active == 0
    requires rest != [] && TargetId(rest[0]) != 0
    ensures TargetId(rest[0]) != expected ==> !Accepted(Parse(lines))
    ensures TargetId(rest[0]) == expected ==>
              Promises(lines, rest[1..], TargetId(rest[0]), expected + 1, [], output + [rest[0]])
  {
    hide Accepted, HasText, Trail, IsHeading, TargetId, Masked, Parse;
    MaskTarget(rest);
    var more := Body(rest[1..]);
    var tail := rest[1..][|more|..];
    assert [] + more == more;
    var s := Sec(TargetId(rest[0]), more, Parse(tail).before);
    CompletesStep(s, Parse(tail).secs, expected);
  }

  lemma CompletesStep(s: Sec, secs: seq<Sec>, expected: nat)
    ensures Completes([s] + secs, expected) <==> s.id == expected && HasText(s.body) && Completes(secs, expected + 1)
  {
    hide HasText;
    var all := [s] + secs;
    if Completes(all, expected) {
      assert all[0] == s;
      forall i | 0 <= i < |secs| ensures secs[i].id == expected + 1 + i && HasText(secs[i].body) {
        assert all[i + 1] == secs[i];
      }
    }
  }

  lemma NothingLeft(lines: seq<string>, active: nat, expected: nat, body: seq<string>, output: seq<string>)
    requires Promises(lines, [], active, expected, body, output) && active == 0
    ensures Accepted(Parse(lines)) <==> expected == 4
    ensures Masked(lines) == output
  {
    hide Accepted;
    assert Masked([]) == [];
  }

  // A payload is accepted exactly when it can be put together from three sections with
  // text, one per target, in order; it can be taken apart in one way only.
  lemma AcceptedIsAssembled(lines: seq<string>, p: Parts)
    requires WellParted(p) && Assemble(p) == lines
    ensures Parse(lines) == p
    ensures Accepted(Parse(lines)) <==> Accepted(p)
  {
    ParseOfAssemble(p);
  }

  // ----- the sentinels

  predicate Contains(line: string, w: string) {
    exists i | 0 <= i <= |line| :: StartsAt(line, i, w)
  }

  predicate StartsAt(line: string, i: nat, w: string)
    requires i <= |line|
  {
    w <= line[i..]
  }

  predicate NoSentinel(lines: seq<string>) {
    forall i, id | 0 <= i < |lines| && 1 <= id <= 3 :: !Contains(lines[i], SentinelFor(id))
  }

  function Count(lines: seq<string>, w: string): nat {
    if lines == [] then 0 else (if lines[0] == w then 1 else 0) + Count(lines[1..], w)
  }

  // The whole step: check for sentinels, run the automaton, count the sentinels written.
  method MaskGitContextSections(lines: seq<string>) returns (ok: bool, output: seq<string>)
    ensures ok <==> NoSentinel(lines) && Accepted(Parse(lines))
    ensures ok ==> output == Masked(lines)
  {
    hide Promises, Accepted, Masked, NoSentinel, Contains, Parse, SentinelFor, Count;
    ok, output := false, [];
    if !NoSentinel(lines) {
      return;
    }
    var masker := new Masker();
    NothingRead(lines);
    assert lines[0..] == lines;
    for n := 0 to |lines|
      invariant fresh(masker) && !masker.failed && masker.Valid()
      invariant Promises(lines, lines[n..], masker.active, masker.expected, masker.body, masker.output)
    {
      assert lines[n..][1..] == lines[n + 1..];
      masker.ReadLine(lines[n], lines, lines[n..]);
      if masker.failed {
        return;
      }
    }
    assert lines[|lines|..] == [];
    masker.Finish(lines);
    if masker.failed {
      return;
    }
    output := masker.output;
    OneSentinelEach(lines);
    ok := Count(output, SentinelFor(1)) == 1 && Count(output, SentinelFor(2)) == 1
        && Count(output, SentinelFor(3)) == 1;
  }

  lemma {:induction false} CountAppend(a: seq<string>, b: seq<string>, w: string)
    ensures Count(a + b, w) == Count(a, w) + Count(b, w)
  {
    if a == [] {
      assert a + b == b;
    } else {
      CountAppend(a[1..], b, w);
      assert (a + b)[1..] == a[1..] + b;
    }
  }

  lemma {:induction false} CountAbsent(lines: seq<string>, w: string)
    requires w !in lines
    ensures Count(lines, w) == 0
  {
    if lines != [] {
      CountAbsent(lines[1..], w);
    }
  }

  lemma ContainsItself(w: string)
    ensures Contains(w, w)
  {
    assert StartsAt(w, 0, w);
  }

  lemma NoSentinelIn(lines: seq<string>, id: nat)
    requires NoSentinel(lines) && 1 <= id <= 3
    ensures SentinelFor(id) !in lines
  {
    hide SentinelFor;
    ContainsItself(SentinelFor(id));
  }

  // What follows from the first check makes the last one superfluous.
  lemma OneSentinelEach(lines: seq<string>)
    requires NoSentinel(lines) && Accepted(Parse(lines))
    ensures forall id | 1 <= id <= 3 :: Count(Masked(lines), SentinelFor(id)) == 1
  {
    hide NoSentinel, SentinelFor, Parse, Count, Assemble, WellParted;
    AssembleOfParse(lines);
    var p := Parse(lines);
    forall id | 1 <= id <= 3 ensures Count(Masked(lines), SentinelFor(id)) == 1 {
      NoSentinelIn(lines, id);
      CountInParts(p, id);
      assert p.secs == [p.secs[0], p.secs[1], p.secs[2]];
      ThreeSecs(p.secs, id);
    }
  }

  // The sections with the given target.
  function WithId(secs: seq<Sec>, id: nat): nat {
    if secs == [] then 0 else (if secs[0].id == id then 1 else 0) + WithId(secs[1..], id)
  }

  lemma ThreeSecs(secs: seq<Sec>, id: nat)
    requires |secs| == 3 && secs[0].id == 1 && secs[1].id == 2 && secs[2].id == 3 && 1 <= id <= 3
    ensures WithId(secs, id) == 1
  {
    assert WithId(secs[3..], id) == 0;
    assert secs[2..][1..] == secs[3..] && secs[1..][1..] == secs[2..];
    assert WithId(secs[2..], id) == if id == 3 then 1 else 0;
    assert WithId(secs[1..], id) == if id == 1 then 0 else 1;
  }

  lemma CountInParts(p: Parts, id: nat)
    requires WellParted(p) && SentinelFor(id) !in Assemble(p) && 1 <= id <= 3
    ensures Count(Assemble(Hollow(p)), SentinelFor(id)) == WithId(p.secs, id)
  {
    hide Count, SentinelFor;
    CountAppend(p.before, AssembleSecs(HollowSecs(p.secs)), SentinelFor(id));
    assert SentinelFor(id) !in p.before;
    CountAbsent(p.before, SentinelFor(id));
    CountInSecs(p.secs, id);
  }

  lemma SentinelsDiffer(i: nat, j: nat)
    requires 1 <= i <= 3 && 1 <= j <= 3
    ensures SentinelFor(i) == SentinelFor(j) <==> i == j
  {
    assert SentinelFor(1)[19] == 'C' && SentinelFor(2)[19] == 'D' && SentinelFor(3)[19] == 'U';
  }

  lemma {:induction false} CountInSecs(secs: seq<Sec>, id: nat)
    requires 1 <= id <= 3 && SentinelFor(id) !in AssembleSecs(secs) && forall i | 0 <= i < |secs| :: SecOk(secs[i])
    ensures Count(AssembleSecs(HollowSecs(secs)), SentinelFor(id)) == WithId(secs, id)
  {
    hide SentinelFor, SecOk;
    if secs == [] {
      CountAbsent([], SentinelFor(id));
    } else {
      CountInSecs(secs[1..], id);
      CountInFirst(secs[0], secs[1..], id);
      assert [secs[0]] + secs[1..] == secs;
    }
  }

  lemma CountInFirst(s: Sec, secs: seq<Sec>, id: nat)
    requires 1 <= id <= 3 && SecOk(s) && SentinelFor(id) !in s.after
    ensures Count(AssembleSecs(HollowSecs([s] + secs)), SentinelFor(id))
            == (if s.id == id then 1 else 0) + Count(AssembleSecs(HollowSecs(secs)), SentinelFor(id))
  {
    hide HollowSecs, AssembleSecs;
    HollowNext(s, secs);
    SentinelsDiffer(s.id, id);
    TrailIsBlank(s.body);
    hide SentinelFor, HeadingOf, Trail, IsHeading, Blank;
    var w := SentinelFor(id);
    var tail := AssembleSecs(HollowSecs(secs));
    CountAppend([HeadingOf(s.id)] + [SentinelFor(s.id)] + Trail(s.body), s.after + tail, w);
    CountAppend([HeadingOf(s.id)] + [SentinelFor(s.id)], Trail(s.body), w);
    CountAppend(s.after, tail, w);
    CountAbsent(s.after, w);
    CountAbsent(Trail(s.body), w);
    CountPair(HeadingOf(s.id), SentinelFor(s.id), w);
  }

  lemma CountPair(a: string, b: string, w: string)
    requires a != w
    ensures Count([a] + [b], w) == if b == w then 1 else 0
  {
    assert ([a] + [b])[1..] == [b] && [b][1..] == [];
    assert Count([], w) == 0 && Count([b], w) == if b == w then 1 else 0;
  }
}
