// Texts as sequences of UTF-16 code units, and their lines.
module Lines {
  import opened TextOffsets

  type Text = seq<Unit>

  const SPACE: Unit := ' ' as int

  function Blanks(n: nat): Text {
    seq(n, _ => SPACE)
  }

  function Split(text: Text): (lines: seq<Text>)
    ensures lines != []
  {
    if text == [] then [[]]
    else
      var rest := Split(text[1..]);
      if text[0] == LF then [[]] + rest else [[text[0]] + rest[0]] + rest[1..]
  }

  function Join(lines: seq<Text>): Text
    requires lines != []
  {
    if |lines| == 1 then lines[0] else lines[0] + [LF] + Join(lines[1..])
  }

  ghost predicate NoLf(lines: seq<Text>) {
    forall k | 0 <= k < |lines| :: LF !in lines[k]
  }

  lemma {:induction false} JoinOfSplit(text: Text)
    ensures Join(Split(text)) == text && NoLf(Split(text))
  {
    hide Join;
    if text == [] {
      JoinOne([]);
    } else {
      JoinOfSplit(text[1..]);
      var rest := Split(text[1..]);
      assert [text[0]] + text[1..] == text;
      if text[0] != LF {
        JoinLonger(text[0], rest);
      } else {
        JoinMore(rest);
      }
    }
  }

  lemma JoinOne(line: Text)
    ensures Join([line]) == line
  {
  }

  lemma JoinLonger(c: Unit, lines: seq<Text>)
    requires lines != []
    ensures Join([[c] + lines[0]] + lines[1..]) == [c] + Join(lines)
  {
    assert ([[c] + lines[0]] + lines[1..])[1..] == lines[1..];
  }

  lemma JoinMore(lines: seq<Text>)
    requires lines != []
    ensures Join([[]] + lines) == [LF] + Join(lines)
  {
    assert ([[]] + lines)[1..] == lines;
  }

  lemma {:induction false} SplitOfJoin(lines: seq<Text>)
    requires lines != [] && NoLf(lines)
    ensures Split(Join(lines)) == lines
    decreases |lines|
  {
    if |lines| == 1 {
      SplitAfter(lines[0]);
    } else {
      SplitOfJoin(lines[1..]);
      SplitAt(lines[0], Join(lines[1..]));
    }
  }

  lemma {:induction false} SplitAfter(line: Text)
    requires LF !in line
    ensures Split(line) == [line]
  {
    if line != [] {
      SplitAfter(line[1..]);
      assert [line[0]] + line[1..] == line;
    }
  }

  lemma {:induction false} SplitAt(line: Text, rest: Text)
    requires LF !in line
    ensures Split(line + [LF] + rest) == [line] + Split(rest)
  {
    var text := line + [LF] + rest;
    if line != [] {
      SplitAt(line[1..], rest);
      assert text[0] == line[0] && text[1..] == line[1..] + [LF] + rest;
      assert [line[0]] + line[1..] == line;
    } else {
      assert text[1..] == rest;
    }
  }

  // Where line `k` starts, counting one separator after every line.
  function Offset(lines: seq<Text>, k: nat): nat
    requires k <= |lines|
  {
    if k == 0 then 0 else Offset(lines, k - 1) + |lines[k - 1]| + 1
  }

  // The units of line `k` stand at its offset.
  lemma {:induction false} LineAtOffset(lines: seq<Text>, k: nat)
    requires k < |lines|
    ensures Offset(lines, k) + |lines[k]| <= |Join(lines)|
    ensures Join(lines)[Offset(lines, k)..][..|lines[k]|] == lines[k]
    ensures k > 0 ==> Join(lines)[Offset(lines, k) - 1] == LF
    ensures if k == |lines| - 1 then Offset(lines, k) + |lines[k]| == |Join(lines)|
            else Offset(lines, k + 1) <= |Join(lines)|
  {
    if k > 0 {
      var first, rest := lines[0] + [LF], Join(lines[1..]);
      LineAtOffset(lines[1..], k - 1);
      OffsetOfTail(lines, k - 1);
      if k < |lines| - 1 {
        OffsetOfTail(lines, k);
      }
      assert Join(lines) == first + rest;
      assert (first + rest)[Offset(lines, k)..] == rest[Offset(lines[1..], k - 1)..];
    } else if |lines| > 1 {
      assert Join(lines)[0..] == lines[0] + ([LF] + Join(lines[1..]));
    }
  }

  lemma {:induction false} OffsetOfTail(lines: seq<Text>, k: nat)
    requires k < |lines|
    ensures Offset(lines, k + 1) == |lines[0]| + 1 + Offset(lines[1..], k)
  {
    if k > 0 {
      OffsetOfTail(lines, k - 1);
    }
  }

  lemma {:induction false} OffsetsGrow(lines: seq<Text>, j: nat, k: nat)
    requires j < k <= |lines|
    ensures Offset(lines, j) + |lines[j]| < Offset(lines, k)
  {
    if j < k - 1 {
      OffsetsGrow(lines, j, k - 1);
    }
  }

  // The same length, and line ends at the same places.
  ghost predicate SameShape(a: Text, b: Text) {
    |a| == |b| && forall i | 0 <= i < |a| :: a[i] == LF <==> b[i] == LF
  }

  lemma {:induction false} SameShapeSameLines(a: Text, b: Text)
    requires SameShape(a, b)
    ensures |Split(a)| == |Split(b)|
    ensures forall k | 0 <= k < |Split(a)| :: |Split(a)[k]| == |Split(b)[k]|
  {
    if a != [] {
      SameShapeSameLines(a[1..], b[1..]);
    }
  }

  lemma {:induction false} SameLengthsSameOffsets(a: seq<Text>, b: seq<Text>, k: nat)
    requires k <= |a| == |b| && forall j | 0 <= j < |a| :: |a[j]| == |b[j]|
    ensures Offset(a, k) == Offset(b, k)
  {
    if k > 0 {
      SameLengthsSameOffsets(a, b, k - 1);
    }
  }

  // Unit `i` of line `k` in the text.
  lemma UnitOfLine(text: Text, k: nat, i: nat)
    requires k < |Split(text)| && i < |Split(text)[k]|
    ensures Offset(Split(text), k) + i < |text|
    ensures text[Offset(Split(text), k) + i] == Split(text)[k][i] != LF
  {
    hide Split, Join, Offset;
    var lines := Split(text);
    JoinOfSplit(text);
    LineAtOffset(lines, k);
    assert text[Offset(lines, k)..][..|lines[k]|][i] == lines[k][i];
  }
}
