// Fenced blocks once more, by the shape of the lines that open and end them: the units
// are numbers, the lines are written as repetitions, and the text is cut block by block.
module CodeBlocks {
  import opened TextOffsets
  import opened Lines
  import opened CodeSpans

  function Repeat(u: Unit, n: nat): Text {
    seq(n, _ => u)
  }

  // Spaces, then a run of `u`, then the rest.
  predicate Reads(line: Text, spaces: nat, u: Unit, n: nat, rest: Text) {
    line == Repeat(32, spaces) + Repeat(u, n) + rest
  }

  // What may follow an opening run on its line: the run is over, the line has no other line
  // terminator, and no backtick follows backticks.
  predicate MayFollow(u: Unit, rest: Text) {
    && (rest != [] ==> rest[0] != u)
    && (forall i | 0 <= i < |rest| :: rest[i] != 10 && rest[i] != 13 && rest[i] != 0x2028 && rest[i] != 0x2029)
    && (u == 96 ==> forall i | 0 <= i < |rest| :: rest[i] != 96)
  }

  // The line opens a block of `n` backticks or `n` tildes.
  ghost predicate OpensBlock(line: Text, u: Unit, n: nat) {
    (u == 96 || u == 126) && n >= 3 && exists spaces: nat, rest :: spaces <= 3 && Reads(line, spaces, u, n, rest)
                                                                   && MayFollow(u, rest)
  }

  predicate OnlyBlanks(rest: Text) {
    forall i | 0 <= i < |rest| :: rest[i] == 32 || rest[i] == 9
  }

  // The line ends a block that was opened by `n` of this unit.
  ghost predicate EndsBlock(line: Text, u: Unit, n: nat) {
    exists spaces: nat, m: nat, rest :: spaces <= 3 && n <= m && Reads(line, spaces, u, m, rest) && OnlyBlanks(rest)
  }

  ghost predicate OpensAny(line: Text) {
    exists u, n :: OpensBlock(line, u, n)
  }

  // The block opened on the first line ends on line `e`.
  ghost predicate BlockEndsAt(lines: seq<Text>, u: Unit, n: nat, e: nat) {
    1 <= e < |lines| && EndsBlock(lines[e], u, n) && forall j | 1 <= j < e :: !EndsBlock(lines[j], u, n)
  }

  ghost predicate BlockNeverEnds(lines: seq<Text>, u: Unit, n: nat) {
    forall j | 1 <= j < |lines| :: !EndsBlock(lines[j], u, n)
  }

  predicate BlankTo(lines: seq<Text>, masked: seq<Text>, e: nat) {
    e <= |lines| && e <= |masked| && forall k | 0 <= k < e :: masked[k] == Repeat(32, |lines[k]|)
  }

  ghost predicate BlockThenRest(lines: seq<Text>, masked: seq<Text>, u: Unit, n: nat, e: nat)
    requires lines != []
    decreases |lines|, 0
  {
    && OpensBlock(lines[0], u, n) && BlockEndsAt(lines, u, n, e) && BlankTo(lines, masked, e + 1)
    && BlocksMasked(lines[e + 1..], masked[e + 1..])
  }

  // A block is blank from its opening to its ending line, or to the end of the text if no
  // line ends it. What follows a block is masked as if it were a text of its own, and so is
  // what follows a line that opens none.
  ghost predicate BlocksMasked(lines: seq<Text>, masked: seq<Text>)
    decreases |lines|, 1
  {
    && |masked| == |lines|
    && (|| lines == []
        || (!OpensAny(lines[0]) && MaskOf(lines[0], masked[0]) && BlocksMasked(lines[1..], masked[1..]))
        || (exists u, n :: OpensBlock(lines[0], u, n) && BlockNeverEnds(lines, u, n) && BlankTo(lines, masked, |lines|))
        || (exists u, n, e :: BlockThenRest(lines, masked, u, n, e)))
  }

  // ----- lines built from repetitions

  // Two readings of a line that agree on the unit of the run, which the rest does not
  // begin with, are the same.
  lemma ReadsOnce(line: Text, s1: nat, u1: Unit, n1: nat, rest1: Text, s2: nat, u2: Unit, n2: nat, rest2: Text)
    requires Reads(line, s1, u1, n1, rest1) && Reads(line, s2, u2, n2, rest2)
    requires u1 != 32 && u2 != 32 && n1 > 0 && n2 > 0
    requires (rest1 != [] ==> rest1[0] != u1) && (rest2 != [] ==> rest2[0] != u2)
    ensures s1 == s2 && u1 == u2 && n1 == n2 && rest1 == rest2
  {
    UnitsOfReading(line, s1, u1, n1, rest1);
    UnitsOfReading(line, s2, u2, n2, rest2);
    assert s1 == s2 by {
      assert line[s1] != 32 && line[s2] != 32;
    }
    assert u1 == line[s1] == u2;
    assert s1 + n1 == s2 + n2;
  }

  lemma UnitsOfReading(line: Text, s: nat, u: Unit, n: nat, rest: Text)
    requires Reads(line, s, u, n, rest)
    ensures |line| == s + n + |rest| && line[s + n..] == rest
    ensures forall i | 0 <= i < s :: line[i] == 32
    ensures forall i | s <= i < s + n :: line[i] == u
    ensures rest != [] ==> line[s + n] == rest[0]
  {
  }

  // A run of `m` of one fence unit, after spaces and before blanks, ends a block exactly
  // if it is made of the block's unit, is no shorter, and is indented by at most three.
  lemma EndingLine(spaces: nat, v: Unit, m: nat, rest: Text, u: Unit, n: nat)
    requires (u == 96 || u == 126) && (v == 96 || v == 126) && n >= 3 && m > 0 && OnlyBlanks(rest)
    ensures EndsBlock(Repeat(32, spaces) + Repeat(v, m) + rest, u, n) <==> spaces <= 3 && v == u && m >= n
  {
    var line := Repeat(32, spaces) + Repeat(v, m) + rest;
    assert Reads(line, spaces, v, m, rest);
    if EndsBlock(line, u, n) {
      var s: nat, k: nat, tail :| s <= 3 && n <= k && Reads(line, s, u, k, tail) && OnlyBlanks(tail);
      ReadsOnce(line, spaces, v, m, rest, s, u, k, tail);
    }
  }

  // A line with text on it ends no block.
  lemma TextEndsNoBlock(line: Text, i: nat, u: Unit, n: nat)
    requires i < |line| && line[i] != 32 && line[i] != 9 && line[i] != u
    ensures !EndsBlock(line, u, n)
  {
    forall spaces: nat, m: nat, rest | Reads(line, spaces, u, m, rest) ensures !OnlyBlanks(rest) {
      UnitsOfReading(line, spaces, u, m, rest);
      assert rest[i - spaces - m] == line[i];
    }
  }

  // A run of one fence unit after spaces opens a block exactly if it is long enough, is
  // indented by at most three, and what follows allows it.
  lemma OpeningLine(spaces: nat, u: Unit, n: nat, rest: Text)
    requires (u == 96 || u == 126) && n > 0 && (rest != [] ==> rest[0] != u)
    ensures OpensAny(Repeat(32, spaces) + Repeat(u, n) + rest) <==> spaces <= 3 && n >= 3 && MayFollow(u, rest)
    ensures forall v, m | OpensBlock(Repeat(32, spaces) + Repeat(u, n) + rest, v, m) :: v == u && m == n
  {
    var line := Repeat(32, spaces) + Repeat(u, n) + rest;
    assert Reads(line, spaces, u, n, rest);
    forall v, m | OpensBlock(line, v, m) ensures v == u && m == n && spaces <= 3 && MayFollow(u, rest) {
      var s: nat, tail :| s <= 3 && Reads(line, s, v, m, tail) && MayFollow(v, tail);
      ReadsOnce(line, spaces, u, n, rest, s, v, m, tail);
    }
    if spaces <= 3 && n >= 3 && MayFollow(u, rest) {
      assert OpensBlock(line, u, n);
    }
  }

  // A line that begins neither with a backtick nor with a tilde after its spaces opens none.
  lemma TextOpensNoBlock(spaces: nat, rest: Text)
    requires rest != [] && rest[0] != 32 && rest[0] != 96 && rest[0] != 126
    ensures !OpensAny(Repeat(32, spaces) + rest)
  {
    var line := Repeat(32, spaces) + rest;
    assert line[spaces] == rest[0] && forall i | 0 <= i < spaces :: line[i] == 32;
    forall u, n ensures !OpensBlock(line, u, n) {
      forall s: nat, tail | n >= 3 && Reads(line, s, u, n, tail) ensures u == 32 || u == rest[0] {
        UnitsOfReading(line, s, u, n, tail);
        assert line[s] == u;
      }
    }
  }

  // What an opening line of `n` units and a line of `m` of them do to the lines after
  // them: if the second ends the block, the others stand alone; if it does not, and no
  // later one does, all of them are blank.
  lemma BlockOfTwo(open: Text, u: Unit, n: nat, second: Text, rest: seq<Text>, masked: seq<Text>)
    requires OpensBlock(open, u, n) && |masked| == |rest| + 2
    ensures EndsBlock(second, u, n) ==>
              (BlocksMasked([open, second] + rest, masked)
               <==> && masked[0] == Repeat(32, |open|) && masked[1] == Repeat(32, |second|)
                    && BlocksMasked(rest, masked[2..]))
    ensures !EndsBlock(second, u, n) && (forall k | 0 <= k < |rest| :: !EndsBlock(rest[k], u, n)) ==>
              (BlocksMasked([open, second] + rest, masked) <==> BlankTo([open, second] + rest, masked, |rest| + 2))
  {
    var lines := [open, second] + rest;
    OpensOneBlock(open, u, n);
    assert OpensAny(lines[0]) && lines[2..] == rest;
    hide OpensBlock, EndsBlock;
    if EndsBlock(second, u, n) {
      assert BlockEndsAt(lines, u, n, 1);
      forall e | BlockEndsAt(lines, u, n, e) ensures e == 1 {
      }
      assert EndsBlock(lines[1], u, n) && !BlockNeverEnds(lines, u, n);
      assert BlockThenRest(lines, masked, u, n, 1)
        <==> masked[0] == Repeat(32, |open|) && masked[1] == Repeat(32, |second|) && BlocksMasked(rest, masked[2..]);
    } else if forall k | 0 <= k < |rest| :: !EndsBlock(rest[k], u, n) {
      assert BlockNeverEnds(lines, u, n);
      assert forall e :: !BlockEndsAt(lines, u, n, e);
    }
  }

  lemma OpensOneBlock(line: Text, u: Unit, n: nat)
    requires OpensBlock(line, u, n)
    ensures forall v, m | OpensBlock(line, v, m) :: v == u && m == n
  {
    var spaces: nat, rest :| spaces <= 3 && Reads(line, spaces, u, n, rest) && MayFollow(u, rest);
    OpeningLine(spaces, u, n, rest);
  }

  // ----- one step through the text

  lemma EndedStep(lines: seq<Text>, masked: seq<Text>, u: Unit, n: nat, e: nat)
    requires lines != [] && |masked| == |lines| && OpensBlock(lines[0], u, n) && BlockEndsAt(lines, u, n, e)
    ensures BlocksMasked(lines, masked)
            <==> BlankTo(lines, masked, e + 1) && BlocksMasked(lines[e + 1..], masked[e + 1..])
  {
    OpensOneBlock(lines[0], u, n);
    hide OpensBlock, EndsBlock, BlankTo, MaskOf;
    EndIsFirst(lines, u, n, e);
    assert OpensAny(lines[0]);
    assert BlockThenRest(lines, masked, u, n, e)
      <==> BlankTo(lines, masked, e + 1) && BlocksMasked(lines[e + 1..], masked[e + 1..]);
    hide BlockEndsAt, BlockNeverEnds;
  }

  lemma UnendedStep(lines: seq<Text>, masked: seq<Text>, u: Unit, n: nat)
    requires lines != [] && |masked| == |lines| && OpensBlock(lines[0], u, n) && BlockNeverEnds(lines, u, n)
    ensures BlocksMasked(lines, masked) <==> BlankTo(lines, masked, |lines|)
  {
    OpensOneBlock(lines[0], u, n);
    hide OpensBlock, EndsBlock, BlankTo, MaskOf;
    assert OpensAny(lines[0]);
    assert forall e :: !BlockEndsAt(lines, u, n, e);
    hide BlockEndsAt, BlockNeverEnds;
  }

  lemma OtherStep(lines: seq<Text>, masked: seq<Text>)
    requires lines != [] && |masked| == |lines| && !OpensAny(lines[0])
    ensures BlocksMasked(lines, masked) <==> MaskOf(lines[0], masked[0]) && BlocksMasked(lines[1..], masked[1..])
  {
    assert forall u, n :: !OpensBlock(lines[0], u, n);
    hide OpensBlock, MaskOf, BlankTo, BlockNeverEnds, BlockEndsAt;
  }

  lemma EndIsFirst(lines: seq<Text>, u: Unit, n: nat, e: nat)
    requires BlockEndsAt(lines, u, n, e)
    ensures !BlockNeverEnds(lines, u, n) && forall k | BlockEndsAt(lines, u, n, k) :: k == e
  {
    hide EndsBlock;
  }
}
