// The sizes and bodies of blobs, as Git prints them for the identities it is given.
module BatchCheck {
  import opened Options
  import opened Utf8
  import opened Decimals
  import opened IndexEntries

  const NEWLINE: Byte := '\n' as int
  const BLOB: seq<Byte> := [BLANK, 'b' as int, 'l' as int, 'o' as int, 'b' as int, BLANK]

  // ----- printing

  function Line(oid: seq<Byte>, size: nat): seq<Byte> {
    oid + BLOB + Dec(size)
  }

  function PrintCheck(oids: seq<seq<Byte>>, sizes: seq<nat>): seq<Byte>
    requires |sizes| == |oids|
  {
    if oids == [] then [] else Line(oids[0], sizes[0]) + [NEWLINE] + PrintCheck(oids[1..], sizes[1..])
  }

  predicate AllSafe(sizes: seq<nat>) {
    forall k | 0 <= k < |sizes| :: sizes[k] <= MAX_SAFE_INTEGER
  }

  predicate AllOids(oids: seq<seq<Byte>>) {
    forall k | 0 <= k < |oids| :: IsOid(oids[k])
  }

  ghost predicate Answers(bytes: seq<Byte>, oids: seq<seq<Byte>>, sizes: seq<nat>) {
    |sizes| == |oids| && AllSafe(sizes) && PrintCheck(oids, sizes) == bytes
  }

  // ----- reading one header

  // The size in a header for `oid`, if it is one.
  function HeaderSize(header: seq<Byte>, oid: seq<Byte>): Option<nat> {
    var at := |oid| + |BLOB|;
    if |header| < at || header[..at] != oid + BLOB then None
    else if !Canonical(header[at..]) || Value(header[at..]) > MAX_SAFE_INTEGER then None
    else Some(Value(header[at..]))
  }

  lemma HeaderIsLine(header: seq<Byte>, oid: seq<Byte>, size: nat)
    ensures HeaderSize(header, oid) == Some(size) <==> size <= MAX_SAFE_INTEGER && header == Line(oid, size)
  {
    var at := |oid| + |BLOB|;
    if HeaderSize(header, oid) == Some(size) {
      CanonicalIsDec(header[at..]);
      assert header == header[..at] + header[at..];
    }
    if size <= MAX_SAFE_INTEGER && header == Line(oid, size) {
      DecIsCanonical(size);
      assert header[..at] == oid + BLOB && header[at..] == Dec(size);
    }
  }

  lemma LineHasNoNewline(oid: seq<Byte>, size: nat)
    requires IsOid(oid)
    ensures NEWLINE !in Line(oid, size) && Line(oid, size) != []
  {
    assert NEWLINE !in oid && NEWLINE !in BLOB && NEWLINE !in Dec(size);
  }

  // The library search for a line feed.
  function Newline(bytes: seq<Byte>, from: nat): (k: Option<nat>)
    ensures k.Some? ==> from <= k.value < |bytes| && bytes[k.value] == NEWLINE && NEWLINE !in bytes[from..k.value]
    ensures k.None? ==> forall j | from <= j < |bytes| :: bytes[j] != NEWLINE
    decreases |bytes| - from
  {
    if from >= |bytes| then None
    else if bytes[from] == NEWLINE then Some(from)
    else Newline(bytes, from + 1)
  }

  function CountNewlines(bytes: seq<Byte>): nat {
    if bytes == [] then 0 else CountNewlines(bytes[..|bytes| - 1]) + (if bytes[|bytes| - 1] == NEWLINE then 1 else 0)
  }

  // ----- reading all sizes

  method ParseBatchCheck(bytes: seq<Byte>, oids: seq<seq<Byte>>) returns (result: Option<seq<nat>>)
    requires AllOids(oids)
    ensures forall sizes :: result == Some(sizes) <==> oids != [] && Answers(bytes, oids, sizes)
  {
    hide CountNewlines, PrintCheck, HeaderSize, IsOid;
    if |bytes| == 0 {
      NothingAnswered(oids);
      return None;
    }
    var lineFeeds := 0;
    CountNone([]);
    assert bytes[..0] == [];
    for n := 0 to |bytes|
      invariant lineFeeds == CountNewlines(bytes[..n])
    {
      NextCount(bytes, n);
      if bytes[n] == NEWLINE {
        lineFeeds := lineFeeds + 1;
      }
    }
    assert bytes[..|bytes|] == bytes;
    AnswersCount(bytes, oids);
    if lineFeeds < |oids| {
      return None;
    }
    if lineFeeds > |oids| || bytes[|bytes| - 1] != NEWLINE {
      return None;
    }
    var sizes: seq<nat> := [];
    var cursor: nat := 0;
    NothingPrintedYet(oids, bytes);
    for n := 0 to |oids|
      invariant ReadUpTo(bytes, oids, n, sizes, cursor)
    {
      var newline := Newline(bytes, cursor);
      HeaderDecides(bytes, oids, n, sizes, cursor);
      if newline.None? {
        return None;
      }
      var size := HeaderSize(bytes[cursor..newline.value], oids[n]);
      if size.None? {
        return None;
      }
      sizes := sizes + [size.value];
      cursor := newline.value + 1;
    }
    ReadAll(bytes, oids, sizes, cursor);
    if cursor != |bytes| {
      return None;
    }
    return Some(sizes);
  }

  // The first `n` lines print `sizes`, and every answer starts with them.
  ghost predicate ReadUpTo(bytes: seq<Byte>, oids: seq<seq<Byte>>, n: nat, sizes: seq<nat>, cursor: nat) {
    && n == |sizes| <= |oids| && cursor <= |bytes| && AllSafe(sizes)
    && PrintCheck(oids[..n], sizes) == bytes[..cursor]
    && forall all | Answers(bytes, oids, all) :: sizes <= all
  }

  lemma {:induction false} PrintCheckSplit(oids: seq<seq<Byte>>, sizes: seq<nat>, n: nat)
    requires |sizes| == |oids| && n <= |oids|
    ensures PrintCheck(oids, sizes) == PrintCheck(oids[..n], sizes[..n]) + PrintCheck(oids[n..], sizes[n..])
  {
    if n == 0 {
      assert oids[0..] == oids && sizes[0..] == sizes;
    } else {
      PrintCheckSplit(oids[1..], sizes[1..], n - 1);
      assert oids[..n][1..] == oids[1..][..n - 1] && sizes[..n][1..] == sizes[1..][..n - 1];
      assert oids[1..][n - 1..] == oids[n..] && sizes[1..][n - 1..] == sizes[n..];
      var first := Line(oids[0], sizes[0]) + [NEWLINE];
      assert first + (PrintCheck(oids[..n][1..], sizes[..n][1..]) + PrintCheck(oids[n..], sizes[n..]))
          == (first + PrintCheck(oids[..n][1..], sizes[..n][1..])) + PrintCheck(oids[n..], sizes[n..]);
    }
  }

  lemma NothingAnswered(oids: seq<seq<Byte>>)
    ensures forall sizes :: Answers([], oids, sizes) ==> oids == []
  {
  }

  lemma NothingPrintedYet(oids: seq<seq<Byte>>, bytes: seq<Byte>)
    ensures ReadUpTo(bytes, oids, 0, [], 0)
  {
  }

  lemma NextCount(bytes: seq<Byte>, n: nat)
    requires n < |bytes|
    ensures CountNewlines(bytes[..n + 1]) == CountNewlines(bytes[..n]) + (if bytes[n] == NEWLINE then 1 else 0)
  {
    assert bytes[..n + 1][..n] == bytes[..n];
  }

  lemma {:induction false} CountAppend(a: seq<Byte>, b: seq<Byte>)
    ensures CountNewlines(a + b) == CountNewlines(a) + CountNewlines(b)
  {
    if b == [] {
      assert a + b == a;
    } else {
      CountAppend(a, b[..|b| - 1]);
      assert (a + b)[..|a + b| - 1] == a + b[..|b| - 1];
    }
  }

  lemma {:induction false} CountNone(a: seq<Byte>)
    requires NEWLINE !in a
    ensures CountNewlines(a) == 0
  {
    if a != [] {
      CountNone(a[..|a| - 1]);
    }
  }

  lemma {:induction false} PrintCounts(oids: seq<seq<Byte>>, sizes: seq<nat>)
    requires |sizes| == |oids| && AllOids(oids)
    ensures CountNewlines(PrintCheck(oids, sizes)) == |oids|
    ensures oids != [] ==>
              PrintCheck(oids, sizes) != [] && PrintCheck(oids, sizes)[|PrintCheck(oids, sizes)| - 1] == NEWLINE
  {
    hide CountNewlines, IsOid, Line;
    if oids == [] {
      CountNone([]);
    } else {
      PrintCounts(oids[1..], sizes[1..]);
      var line, rest := Line(oids[0], sizes[0]), PrintCheck(oids[1..], sizes[1..]);
      LineHasNoNewline(oids[0], sizes[0]);
      CountNone(line);
      CountOne();
      CountAppend(line, [NEWLINE]);
      CountAppend(line + [NEWLINE], rest);
    }
  }

  lemma CountOne()
    ensures CountNewlines([NEWLINE]) == 1
  {
    assert [NEWLINE][..0] == [];
  }

  lemma AnswersCount(bytes: seq<Byte>, oids: seq<seq<Byte>>)
    requires AllOids(oids)
    ensures forall sizes | Answers(bytes, oids, sizes) ::
              CountNewlines(bytes) == |oids| && (oids != [] ==> bytes != [] && bytes[|bytes| - 1] == NEWLINE)
  {
    forall sizes | Answers(bytes, oids, sizes)
      ensures CountNewlines(bytes) == |oids| && (oids != [] ==> bytes != [] && bytes[|bytes| - 1] == NEWLINE)
    {
      PrintCounts(oids, sizes);
    }
  }

  // What stands before the next line feed must be the next line of any answer.
  lemma NextLine(bytes: seq<Byte>, oids: seq<seq<Byte>>, n: nat, sizes: seq<nat>, cursor: nat, all: seq<nat>)
    requires n < |oids| && AllOids(oids) && ReadUpTo(bytes, oids, n, sizes, cursor) && Answers(bytes, oids, all)
    ensures Newline(bytes, cursor).Some?
    ensures bytes[cursor..Newline(bytes, cursor).value] == Line(oids[n], all[n])
    ensures all[..n] == sizes && all[n] <= MAX_SAFE_INTEGER
  {
    hide IsOid, Line;
    PrintCheckSplit(oids, all, n);
    LineHasNoNewline(oids[n], all[n]);
    var line := Line(oids[n], all[n]);
    var rest := PrintCheck(oids[n..], all[n..]);
    assert all[..n] == sizes;
    assert bytes == bytes[..cursor] + rest;
    assert rest == line + [NEWLINE] + PrintCheck(oids[n..][1..], all[n..][1..]);
    FirstNewline(bytes, cursor, line);
  }

  lemma FirstNewline(bytes: seq<Byte>, from: nat, line: seq<Byte>)
    requires from + |line| < |bytes| && bytes[from..from + |line|] == line
    requires NEWLINE !in line && bytes[from + |line|] == NEWLINE
    ensures Newline(bytes, from) == Some(from + |line|)
    decreases |line|
  {
    if line != [] {
      assert bytes[from..from + |line|][0] == bytes[from];
      assert bytes[from + 1..from + |line|] == bytes[from..from + |line|][1..];
      FirstNewline(bytes, from + 1, line[1..]);
    }
  }

  lemma HeaderDecides(bytes: seq<Byte>, oids: seq<seq<Byte>>, n: nat, sizes: seq<nat>, cursor: nat)
    requires n < |oids| && AllOids(oids) && ReadUpTo(bytes, oids, n, sizes, cursor)
    ensures Newline(bytes, cursor).None? ==> forall all :: !Answers(bytes, oids, all)
    ensures Newline(bytes, cursor).Some? ==>
              match HeaderSize(bytes[cursor..Newline(bytes, cursor).value], oids[n])
              case None => forall all :: !Answers(bytes, oids, all)
              case Some(size) => ReadUpTo(bytes, oids, n + 1, sizes + [size], Newline(bytes, cursor).value + 1)
  {
    hide HeaderSize, Answers, Line, IsOid, ReadUpTo;
    var newline := Newline(bytes, cursor);
    forall all | Answers(bytes, oids, all)
      ensures |all| > n && all[..n] == sizes
      ensures newline.Some? && HeaderSize(bytes[cursor..newline.value], oids[n]) == Some(all[n])
    {
      AnswerHasSizes(bytes, oids, all);
      NextLine(bytes, oids, n, sizes, cursor, all);
      HeaderIsLine(bytes[cursor..newline.value], oids[n], all[n]);
    }
    if newline.Some? && HeaderSize(bytes[cursor..newline.value], oids[n]).Some? {
      ReadOneMore(bytes, oids, n, sizes, cursor, newline.value);
    }
  }

  lemma AnswerHasSizes(bytes: seq<Byte>, oids: seq<seq<Byte>>, all: seq<nat>)
    requires Answers(bytes, oids, all)
    ensures |all| == |oids|
  {
  }

  lemma ReadOneMore(bytes: seq<Byte>, oids: seq<seq<Byte>>, n: nat, sizes: seq<nat>, cursor: nat, newline: nat)
    requires n < |oids| && ReadUpTo(bytes, oids, n, sizes, cursor)
    requires cursor <= newline < |bytes| && bytes[newline] == NEWLINE
    requires HeaderSize(bytes[cursor..newline], oids[n]).Some?
    requires forall all | Answers(bytes, oids, all) ::
               |all| > n && all[..n] == sizes && HeaderSize(bytes[cursor..newline], oids[n]) == Some(all[n])
    ensures ReadUpTo(bytes, oids, n + 1, sizes + [HeaderSize(bytes[cursor..newline], oids[n]).value], newline + 1)
  {
    hide Line, Answers, HeaderSize, PrintCheck;
    var size := HeaderSize(bytes[cursor..newline], oids[n]).value;
    HeaderIsLine(bytes[cursor..newline], oids[n], size);
    PrintOneMore(oids[..n], sizes, oids[n], size);
    assert oids[..n] + [oids[n]] == oids[..n + 1];
    assert bytes[..newline + 1] == bytes[..cursor] + (bytes[cursor..newline] + [NEWLINE]);
    forall all | Answers(bytes, oids, all) ensures sizes + [size] <= all {
      assert sizes + [size] == all[..n + 1];
    }
  }

  lemma PrintOneMore(oids: seq<seq<Byte>>, sizes: seq<nat>, oid: seq<Byte>, size: nat)
    requires |sizes| == |oids|
    ensures PrintCheck(oids + [oid], sizes + [size]) == PrintCheck(oids, sizes) + (Line(oid, size) + [NEWLINE])
  {
    hide Line, PrintCheck;
    var n := |oids|;
    PrintCheckSplit(oids + [oid], sizes + [size], n);
    assert (oids + [oid])[..n] == oids && (sizes + [size])[..n] == sizes;
    assert (oids + [oid])[n..] == [oid] && (sizes + [size])[n..] == [size];
    PrintCheckOne(oid, size);
  }

  lemma PrintCheckOne(oid: seq<Byte>, size: nat)
    ensures PrintCheck([oid], [size]) == Line(oid, size) + [NEWLINE]
  {
    assert PrintCheck([oid][1..], [size][1..]) == [];
  }

  lemma ReadAll(bytes: seq<Byte>, oids: seq<seq<Byte>>, sizes: seq<nat>, cursor: nat)
    requires ReadUpTo(bytes, oids, |oids|, sizes, cursor)
    ensures forall all :: Answers(bytes, oids, all) <==> cursor == |bytes| && all == sizes
  {
    assert oids[..|oids|] == oids;
    forall all | Answers(bytes, oids, all) ensures all == sizes && cursor == |bytes| {
      assert sizes <= all;
    }
    if cursor == |bytes| {
      assert bytes[..cursor] == bytes;
    }
  }

  // ----- buffer sizes

  // Adds to a size, unless the sum is not a safe integer or no buffer can hold it.
  function CheckedBatchBytes(total: nat, amount: nat, maxLength: nat): (next: Option<nat>)
    ensures next.Some? <==> total + amount <= MAX_SAFE_INTEGER && total + amount <= maxLength
    ensures next.Some? ==> next.value == total + amount
  {
    if total > MAX_SAFE_INTEGER || amount > MAX_SAFE_INTEGER || total > MAX_SAFE_INTEGER - amount then None
    else if total + amount > maxLength then None
    else Some(total + amount)
  }

  // The longest answer there is.
  function LongestAnswer(oids: seq<seq<Byte>>): nat {
    if oids == [] then 0
    else LongestAnswer(oids[..|oids| - 1]) + |Line(oids[|oids| - 1], MAX_SAFE_INTEGER)| + 1
  }

  // The buffer for all sizes has the length of the longest answer, and is refused
  // exactly when that is too long.
  method BatchCheckMaxBuffer(oids: seq<seq<Byte>>, maxLength: nat) returns (result: Option<nat>)
    ensures result == if LongestAnswer(oids) <= MAX_SAFE_INTEGER && LongestAnswer(oids) <= maxLength
                      then Some(LongestAnswer(oids))
                      else None
  {
    hide Dec, Line;
    var decimalWidth := |Dec(MAX_SAFE_INTEGER)|;
    var maximum: nat := 0;
    assert oids[..|oids|] == oids;
    for n := 0 to |oids|
      invariant maximum == LongestAnswer(oids[..n])
      invariant maximum <= MAX_SAFE_INTEGER && (n > 0 ==> maximum <= maxLength)
    {
      LongestGrows(oids, n, |oids|);
      LongestNext(oids, n);
      var next := CheckedBatchBytes(maximum, |oids[n]| + |BLOB| + decimalWidth + 1, maxLength);
      if next.None? {
        LongestGrows(oids, n + 1, |oids|);
        return None;
      }
      maximum := next.value;
    }
    return Some(maximum);
  }

  lemma LongestNext(oids: seq<seq<Byte>>, n: nat)
    requires n < |oids|
    ensures LongestAnswer(oids[..n + 1])
            == LongestAnswer(oids[..n]) + (|oids[n]| + |BLOB| + |Dec(MAX_SAFE_INTEGER)| + 1)
  {
    assert oids[..n + 1][..n] == oids[..n];
  }

  lemma {:induction false} LongestGrows(oids: seq<seq<Byte>>, n: nat, m: nat)
    requires n <= m <= |oids|
    ensures LongestAnswer(oids[..n]) <= LongestAnswer(oids[..m])
  {
    hide Dec, Line, LongestAnswer;
    if n < m {
      LongestGrows(oids, n, m - 1);
      LongestNext(oids, m - 1);
    }
  }

  // No answer is longer than the buffer.
  lemma {:induction false} AnswersFit(oids: seq<seq<Byte>>, sizes: seq<nat>)
    requires |sizes| == |oids| && AllSafe(sizes)
    ensures |PrintCheck(oids, sizes)| <= LongestAnswer(oids)
    decreases |oids|
  {
    hide Dec, Line;
    if oids != [] {
      var n := |oids| - 1;
      AnswersFit(oids[..n], sizes[..n]);
      PrintOneMore(oids[..n], sizes[..n], oids[n], sizes[n]);
      assert oids[..n] + [oids[n]] == oids && sizes[..n] + [sizes[n]] == sizes;
      LineFits(oids[n], sizes[n]);
    }
  }

  lemma LineFits(oid: seq<Byte>, size: nat)
    requires size <= MAX_SAFE_INTEGER
    ensures |Line(oid, size)| <= |Line(oid, MAX_SAFE_INTEGER)|
  {
    SafeIntegersAreShort(size);
  }

  // Nor could the buffer be shorter: some answer needs all of it.
  lemma {:induction false} BufferIsTight(oids: seq<seq<Byte>>)
    ensures |PrintCheck(oids, seq(|oids|, _ => MAX_SAFE_INTEGER))| == LongestAnswer(oids)
    decreases |oids|
  {
    hide Dec, Line;
    if oids != [] {
      var n := |oids| - 1;
      BufferIsTight(oids[..n]);
      PrintOneMore(oids[..n], seq(n, _ => MAX_SAFE_INTEGER), oids[n], MAX_SAFE_INTEGER);
      assert oids[..n] + [oids[n]] == oids;
      assert seq(n, _ => MAX_SAFE_INTEGER) + [MAX_SAFE_INTEGER] == seq(|oids|, _ => MAX_SAFE_INTEGER);
    }
  }

  // ----- one body

  // What Git prints for one blob.
  function PrintBody(oid: seq<Byte>, body: seq<Byte>): seq<Byte> {
    Line(oid, |body|) + [NEWLINE] + body + [NEWLINE]
  }

  // The buffer for a body: the header, the body and two line feeds.
  function BodyMaxBuffer(oid: seq<Byte>, size: nat, maxLength: nat): Option<nat> {
    match CheckedBatchBytes(0, |Line(oid, size)| + 1, maxLength)
    case None => None
    case Some(a) =>
      match CheckedBatchBytes(a, size, maxLength)
      case None => None
      case Some(b) => CheckedBatchBytes(b, 1, maxLength)
  }

  predicate Fits(output: seq<Byte>, maxLength: nat) {
    |output| <= MAX_SAFE_INTEGER && |output| <= maxLength
  }

  // Accepts exactly the printed blob of the expected size, which fills the computed buffer.
  method ReadIndexBlob(oid: seq<Byte>, size: nat, maxLength: nat, output: seq<Byte>) returns (result: Option<seq<Byte>>)
    requires IsOid(oid) && size <= MAX_SAFE_INTEGER
    ensures forall body :: result == Some(body)
                           <==> |body| == size && output == PrintBody(oid, body) && Fits(output, maxLength)
    ensures result.Some? ==> BodyMaxBuffer(oid, size, maxLength) == Some(|output|)
  {
    hide Dec, Line, HeaderSize, IsOid;
    PrintedBodies(oid, size, output);
    var maxBuffer := BodyMaxBuffer(oid, size, maxLength);
    if maxBuffer.None? {
      return None;
    }
    var newline := Newline(output, 0);
    if newline.None? {
      return None;
    }
    var bodySize := HeaderSize(output[..newline.value], oid);
    if bodySize.None? || bodySize.value != size {
      return None;
    }
    HeaderIsLine(output[..newline.value], oid, size);
    var start := newline.value + 1;
    var end := start + size;
    if end >= |output| || output[end] != NEWLINE {
      return None;
    }
    if end + 1 != |output| {
      return None;
    }
    assert output == output[..newline.value] + [NEWLINE] + output[start..end] + [NEWLINE];
    return Some(output[start..end]);
  }

  // A printed blob has its header before the first line feed and its body after it.
  lemma PrintedBodies(oid: seq<Byte>, size: nat, output: seq<Byte>)
    requires IsOid(oid) && size <= MAX_SAFE_INTEGER
    ensures forall body | |body| == size && output == PrintBody(oid, body) ::
              && Newline(output, 0) == Some(|Line(oid, size)|)
              && HeaderSize(output[..|Line(oid, size)|], oid) == Some(size)
              && |output| == |Line(oid, size)| + size + 2 && output[|output| - 1] == NEWLINE
              && output[|Line(oid, size)| + 1..|output| - 1] == body
  {
    hide HeaderSize, Line, Dec, IsOid, Newline;
    forall body | |body| == size && output == PrintBody(oid, body)
      ensures Newline(output, 0) == Some(|Line(oid, size)|)
      ensures HeaderSize(output[..|Line(oid, size)|], oid) == Some(size)
      ensures |output| == |Line(oid, size)| + size + 2 && output[|output| - 1] == NEWLINE
      ensures output[|Line(oid, size)| + 1..|output| - 1] == body
    {
      var line := Line(oid, size);
      LineHasNoNewline(oid, size);
      assert output[0..0 + |line|] == line;
      FirstNewline(output, 0, line);
      HeaderIsLine(line, oid, size);
      assert output[..|line|] == line;
    }
  }
}
