// The exhaustive search for mojibake signatures, line by line.
module Mojibake {
  import opened Utf8
  import opened TextOffsets

  // MJ001 to MJ007.
  const SIGNATURES: seq<seq<Unit>> := [
    [0x00E2, 0x20AC, 0x201D],
    [0x00E2, 0x20AC, 0x201C],
    [0x00E2, 0x2020, 0x2019],
    [0x00E2, 0x2030, 0x00A5],
    [0x00C2, 0x00B7],
    [0x00C2, 0x00A7],
    [0x00EF, 0x00BB, 0x00BF]]

  predicate MatchAt(text: seq<Unit>, s: seq<Unit>, g: nat) {
    g + |s| <= |text| && text[g..g + |s|] == s
  }

  // A match starts nowhere inside another match, and every match lies on one line and
  // starts a character.
  predicate Searchable(s: seq<Unit>) {
    && s != []
    && (forall k | 0 < k < |s| :: s[k..] != s[..|s| - k])
    && (forall k | 0 <= k < |s| :: s[k] != LF && !High(s[k]) && !Low(s[k]))
  }

  lemma SignaturesAreSearchable()
    ensures forall i | 0 <= i < |SIGNATURES| :: Searchable(SIGNATURES[i])
  {
    forall i | 0 <= i < |SIGNATURES| ensures Searchable(SIGNATURES[i]) {
      var s := SIGNATURES[i];
      forall k | 0 < k < |s| ensures s[k..] != s[..|s| - k] {
        assert s[k..][0] == s[k] && s[..|s| - k][0] == s[0] && s[k] != s[0];
      }
    }
  }

  lemma OverlapIsBorder(text: seq<Unit>, s: seq<Unit>, g: nat, h: nat)
    requires MatchAt(text, s, g) && MatchAt(text, s, h) && g < h < g + |s|
    ensures s[h - g..] == s[..|s| - (h - g)]
  {
    assert s[h - g..] == text[g..g + |s|][h - g..] == text[h..g + |s|];
    assert s[..|s| - (h - g)] == text[h..h + |s|][..|s| - (h - g)] == text[h..g + |s|];
  }

  lemma MatchesDoNotOverlap(text: seq<Unit>, s: seq<Unit>, g: nat, h: nat)
    requires Searchable(s) && MatchAt(text, s, g) && MatchAt(text, s, h) && g < h
    ensures g + |s| <= h
  {
    if h < g + |s| {
      OverlapIsBorder(text, s, g, h);
    }
  }

  lemma MatchUnits(text: seq<Unit>, s: seq<Unit>, g: nat)
    requires MatchAt(text, s, g)
    ensures forall j | g <= j < g + |s| :: text[j] == s[j - g]
  {
    forall j | g <= j < g + |s| ensures text[j] == s[j - g] {
      assert text[g..g + |s|][j - g] == text[j];
    }
  }

  lemma NoMatchAtLf(text: seq<Unit>, s: seq<Unit>, b: nat)
    requires Searchable(s) && b < |text| && text[b] == LF
    ensures !MatchAt(text, s, b)
  {
    if MatchAt(text, s, b) {
      MatchUnits(text, s, b);
    }
  }

  // How many matches start before `n`.
  function MatchesBefore(text: seq<Unit>, s: seq<Unit>, n: nat): nat {
    if n == 0 then 0 else MatchesBefore(text, s, n - 1) + (if MatchAt(text, s, n - 1) then 1 else 0)
  }

  lemma {:induction false} NoMatchesBetween(text: seq<Unit>, s: seq<Unit>, a: nat, b: nat)
    requires a <= b && forall g | a <= g < b :: !MatchAt(text, s, g)
    ensures MatchesBefore(text, s, a) == MatchesBefore(text, s, b)
    decreases b
  {
    if a < b {
      NoMatchesBetween(text, s, a, b - 1);
    }
  }

  // ----- one line

  method IndexOf(text: seq<Unit>, s: seq<Unit>, from: nat) returns (index: int)
    requires from <= |text|
    ensures index == -1 ==> forall g | from <= g :: !MatchAt(text, s, g)
    ensures index != -1 ==>
              from <= index && MatchAt(text, s, index) && forall g | from <= g < index :: !MatchAt(text, s, g)
  {
    var g := from;
    while g + |s| <= |text|
      invariant from <= g && forall h | from <= h < g :: !MatchAt(text, s, h)
      decreases |text| - g
    {
      if text[g..g + |s|] == s {
        return g;
      }
      g := g + 1;
    }
    return -1;
  }

  // After a match at `index` the search goes on behind it and misses nothing.
  lemma SkipMatch(line: seq<Unit>, s: seq<Unit>, from: nat, index: nat)
    requires Searchable(s) && from <= index && MatchAt(line, s, index)
    requires forall g | from <= g < index :: !MatchAt(line, s, g)
    ensures MatchesBefore(line, s, index) == MatchesBefore(line, s, from)
    ensures MatchesBefore(line, s, index + |s|) == MatchesBefore(line, s, from) + 1
    ensures forall g | from <= g < index + |s| && MatchAt(line, s, g) :: g == index
  {
    forall g | index < g < index + |s| ensures !MatchAt(line, s, g) {
      if MatchAt(line, s, g) {
        MatchesDoNotOverlap(line, s, index, g);
      }
    }
    NoMatchesBetween(line, s, from, index);
    NoMatchesBetween(line, s, index + 1, index + |s|);
  }

  // Local positions of all matches of one signature on a line, in order.
  method SearchLine(line: seq<Unit>, s: seq<Unit>) returns (positions: seq<nat>)
    requires Searchable(s)
    ensures LineSearched(line, s, positions)
  {
    hide MatchAt, MatchesBefore, Searchable;
    positions := [];
    var searchFrom := 0;
    NoneBeforeStart(line, s);
    while searchFrom <= |line|
      invariant searchFrom <= |line| && |s| > 0
      invariant forall g: nat :: g in positions <==> MatchAt(line, s, g) && g < searchFrom
      invariant forall i | 0 <= i < |positions| :: MatchesBefore(line, s, positions[i]) == i
      invariant MatchesBefore(line, s, searchFrom) == |positions|
      decreases |line| - searchFrom
    {
      var index := IndexOf(line, s, searchFrom);
      if index == -1 {
        break;
      }
      SkipMatch(line, s, searchFrom, index);
      MatchFits(line, s, index);
      positions := positions + [index];
      searchFrom := index + |s|;
    }
    forall g: nat | MatchAt(line, s, g) ensures g in positions {
      MatchFits(line, s, g);
    }
  }

  lemma NoneBeforeStart(line: seq<Unit>, s: seq<Unit>)
    ensures MatchesBefore(line, s, 0) == 0 && (Searchable(s) ==> |s| > 0)
  {
  }

  lemma MatchFits(line: seq<Unit>, s: seq<Unit>, g: nat)
    requires MatchAt(line, s, g)
    ensures g + |s| <= |line|
  {
  }

  // ----- the whole text

  // The line of position `g`: where it starts, where it ends, and its number.
  function LineStart(text: seq<Unit>, g: nat): (a: nat)
    requires g <= |text|
    ensures a <= g && (a == 0 || text[a - 1] == LF) && forall k | a <= k < g :: text[k] != LF
  {
    if g == 0 || text[g - 1] == LF then g else LineStart(text, g - 1)
  }

  function LineEnd(text: seq<Unit>, g: nat): (b: nat)
    requires g <= |text|
    ensures g <= b <= |text| && (b == |text| || text[b] == LF) && forall k | g <= k < b :: text[k] != LF
    decreases |text| - g
  {
    if g == |text| || text[g] == LF then g else LineEnd(text, g + 1)
  }

  function LineNumber(text: seq<Unit>, g: nat): nat
    requires g <= |text|
  {
    if g == 0 then 1 else LineNumber(text, g - 1) + (if text[g - 1] == LF then 1 else 0)
  }

  function LineText(text: seq<Unit>, g: nat): seq<Unit>
    requires g <= |text|
  {
    text[LineStart(text, g)..LineEnd(text, g)]
  }

  // One reported occurrence; `hash` stands for the digest of its line.
  datatype Found = Found(sig: nat, line: nat, occurrence: nat, hash: nat, index: nat)

  // The entry tells the truth about a match: its line, its rank among the matches of
  // the same signature on that line, and the digest of that line.
  ghost predicate Truthful(text: seq<Unit>, hash: seq<Unit> -> nat, f: Found) {
    && f.sig < |SIGNATURES| && f.index <= |text| && MatchAt(text, SIGNATURES[f.sig], f.index)
    && f.line == LineNumber(text, f.index)
    && f.hash == hash(LineText(text, f.index))
    && f.occurrence
       == MatchesBefore(LineText(text, f.index), SIGNATURES[f.sig], f.index - LineStart(text, f.index)) + 1
  }

  // The signature has a match at `g`.
  predicate Hit(text: seq<Unit>, sig: nat, g: nat) {
    sig < |SIGNATURES| && MatchAt(text, SIGNATURES[sig], g)
  }

  ghost predicate Distinct(found: seq<Found>) {
    forall i, j | 0 <= i < j < |found| :: found[i].sig != found[j].sig || found[i].index != found[j].index
  }

  ghost predicate Reported(found: seq<Found>, sig: nat, g: nat) {
    exists f :: f in found && f.sig == sig && f.index == g
  }

  // Exactly the matches of all signatures, each once, each described truthfully.
  ghost predicate Exhaustive(text: seq<Unit>, hash: seq<Unit> -> nat, found: seq<Found>) {
    && (forall f | f in found :: Truthful(text, hash, f))
    && Distinct(found)
    && forall sig: nat, g: nat | Hit(text, sig, g) :: Reported(found, sig, g)
  }

  // Positions inside one line have that line.
  lemma {:induction false} SameLine(text: seq<Unit>, a: nat, g: nat)
    requires a <= g <= |text| && LineStart(text, a) == a && forall k | a <= k < g :: text[k] != LF
    ensures LineStart(text, g) == a
    ensures LineNumber(text, g) == LineNumber(text, a) && LineEnd(text, a) == LineEnd(text, g)
    decreases g
  {
    if a < g {
      SameLine(text, a, g - 1);
    }
  }

  lemma SliceOfSlice(text: seq<Unit>, a: nat, b: nat, c: nat, d: nat)
    requires a <= c <= d <= b <= |text|
    ensures text[a..b][c - a..d - a] == text[c..d]
  {
    var l, r := text[a..b][c - a..d - a], text[c..d];
    forall i | 0 <= i < d - c ensures l[i] == r[i] {
      assert l[i] == text[a..b][c - a + i];
    }
  }

  lemma MatchIsLocal(text: seq<Unit>, s: seq<Unit>, a: nat, b: nat, g: nat)
    requires Searchable(s) && a <= g < b && b <= |text| && (b == |text| || text[b] == LF)
    ensures MatchAt(text, s, g) <==> MatchAt(text[a..b], s, g - a)
  {
    if MatchAt(text, s, g) {
      MatchUnits(text, s, g);
      SliceOfSlice(text, a, b, g, g + |s|);
    }
    if MatchAt(text[a..b], s, g - a) {
      SliceOfSlice(text, a, b, g, g + |s|);
    }
  }

  // What has been reported once the lines before `a` and, on the line at `a`, the
  // first `sigs` signatures are done.
  ghost predicate Progress(text: seq<Unit>, hash: seq<Unit> -> nat, found: seq<Found>, a: nat, b: nat, sigs: nat) {
    && (forall f | f in found :: Truthful(text, hash, f) && (f.index < a || (a <= f.index < b && f.sig < sigs)))
    && Distinct(found)
    && (forall sig: nat, g: nat | Hit(text, sig, g) && (g < a || (g < b && sig < sigs)) :: Reported(found, sig, g))
  }

  // All entries of one signature on one line.
  function Entries(sig: nat, line: nat, hash: nat, lineStart: nat, positions: seq<nat>): seq<Found> {
    seq(|positions|, i requires 0 <= i < |positions| => Found(sig, line, i + 1, hash, lineStart + positions[i]))
  }

  // What the search of one signature on one line knows about its positions.
  ghost predicate LineSearched(line: seq<Unit>, s: seq<Unit>, positions: seq<nat>) {
    && (forall g: nat :: g in positions <==> MatchAt(line, s, g))
    && (forall i | 0 <= i < |positions| :: MatchesBefore(line, s, positions[i]) == i)
  }

  // `[a, b)` is a line of the text.
  predicate IsLine(text: seq<Unit>, a: nat, b: nat) {
    a <= b <= |text| && LineStart(text, a) == a && LineEnd(text, a) == b
  }

  lemma PositionOnLine(text: seq<Unit>, a: nat, b: nat, s: seq<Unit>, positions: seq<nat>, i: nat)
    requires IsLine(text, a, b) && Searchable(s) && i < |positions| && LineSearched(text[a..b], s, positions)
    ensures a + positions[i] < b && MatchAt(text, s, a + positions[i])
    ensures MatchesBefore(text[a..b], s, positions[i]) == i
    ensures LineStart(text, a + positions[i]) == a && LineEnd(text, a + positions[i]) == b
    ensures LineNumber(text, a + positions[i]) == LineNumber(text, a)
  {
    assert positions[i] in positions;
    assert MatchAt(text[a..b], s, positions[i]);
    MatchIsLocal(text, s, a, b, a + positions[i]);
    hide MatchAt, MatchesBefore, LineSearched;
    SameLine(text, a, a + positions[i]);
  }

  lemma EntryIsTruthful(text: seq<Unit>, hash: seq<Unit> -> nat, a: nat, b: nat, sig: nat, positions: seq<nat>, i: nat)
    requires IsLine(text, a, b) && sig < |SIGNATURES| && Searchable(SIGNATURES[sig]) && i < |positions|
    requires LineSearched(text[a..b], SIGNATURES[sig], positions)
    ensures a <= a + positions[i] < b
    ensures Truthful(text, hash, Entries(sig, LineNumber(text, a), hash(text[a..b]), a, positions)[i])
  {
    hide Searchable, MatchAt, MatchesBefore, LineSearched, LineStart, LineEnd, LineNumber;
    PositionOnLine(text, a, b, SIGNATURES[sig], positions, i);
  }

  lemma MatchHasEntry(text: seq<Unit>, a: nat, b: nat, sig: nat, positions: seq<nat>, line: nat, hash: nat, g: nat)
    requires IsLine(text, a, b) && Hit(text, sig, g) && Searchable(SIGNATURES[sig]) && a <= g < b
    requires LineSearched(text[a..b], SIGNATURES[sig], positions)
    ensures Reported(Entries(sig, line, hash, a, positions), sig, g)
  {
    MatchIsLocal(text, SIGNATURES[sig], a, b, g);
    assert g - a in positions;
    var i :| 0 <= i < |positions| && positions[i] == g - a;
    assert Entries(sig, line, hash, a, positions)[i] in Entries(sig, line, hash, a, positions);
  }

  lemma ReportedStays(found: seq<Found>, entries: seq<Found>, sig: nat, g: nat)
    requires Reported(found, sig, g) || Reported(entries, sig, g)
    ensures Reported(found + entries, sig, g)
  {
    var f :| (f in found || f in entries) && f.sig == sig && f.index == g;
    assert f in found + entries;
  }

  lemma EntriesProgress(text: seq<Unit>, hash: seq<Unit> -> nat, found: seq<Found>, a: nat, b: nat, sig: nat,
                        positions: seq<nat>)
    requires IsLine(text, a, b) && sig < |SIGNATURES| && Searchable(SIGNATURES[sig])
    requires Progress(text, hash, found, a, b, sig) && LineSearched(text[a..b], SIGNATURES[sig], positions)
    ensures Progress(text, hash, found + Entries(sig, LineNumber(text, a), hash(text[a..b]), a, positions),
                     a, b, sig + 1)
  {
    var line, digest := LineNumber(text, a), hash(text[a..b]);
    var entries := Entries(sig, line, digest, a, positions);
    forall i | 0 <= i < |entries|
      ensures Truthful(text, hash, entries[i]) && a <= entries[i].index < b && entries[i].sig == sig
    {
      EntryIsTruthful(text, hash, a, b, sig, positions, i);
    }
    EntriesAreDistinct(found, sig, line, digest, a, positions, text[a..b], SIGNATURES[sig]);
    hide Truthful, Hit, LineSearched, Searchable, Entries, Distinct, IsLine;
    forall sg: nat, g: nat | Hit(text, sg, g) && (g < a || (g < b && sg < sig + 1))
      ensures Reported(found + entries, sg, g)
    {
      if g >= a && sg == sig {
        MatchHasEntry(text, a, b, sig, positions, line, digest, g);
      }
      ReportedStays(found, entries, sg, g);
    }
  }

  lemma EntriesAreDistinct(found: seq<Found>, sig: nat, line: nat, hash: nat, a: nat, positions: seq<nat>,
                           lineText: seq<Unit>, s: seq<Unit>)
    requires Distinct(found) && forall f | f in found :: f.index < a || f.sig < sig
    requires LineSearched(lineText, s, positions)
    ensures Distinct(found + Entries(sig, line, hash, a, positions))
  {
    var entries := Entries(sig, line, hash, a, positions);
    var more := found + entries;
    forall i, j | 0 <= i < j < |more| ensures more[i].sig != more[j].sig || more[i].index != more[j].index {
      if i < |found| {
        assert more[i] in found;
      } else {
        assert more[i] == entries[i - |found|] && more[j] == entries[j - |found|];
        assert MatchesBefore(lineText, s, positions[i - |found|]) != MatchesBefore(lineText, s, positions[j - |found|]);
      }
    }
  }

  lemma NextLine(text: seq<Unit>, hash: seq<Unit> -> nat, found: seq<Found>, a: nat, b: nat)
    requires a <= b < |text| && text[b] == LF && Progress(text, hash, found, a, b, |SIGNATURES|)
    requires LineStart(text, a) == a && forall k | a <= k < b :: text[k] != LF
    ensures LineStart(text, b + 1) == b + 1 && LineNumber(text, b + 1) == LineNumber(text, a) + 1
    ensures Progress(text, hash, found, b + 1, LineEnd(text, b + 1), 0)
  {
    SameLine(text, a, b);
    SignaturesAreSearchable();
    forall sig: nat, g: nat | Hit(text, sig, g) && g < b + 1 ensures Reported(found, sig, g) {
      NoMatchAtLf(text, SIGNATURES[sig], b);
    }
  }

  method FindOccurrences(text: seq<Unit>, hash: seq<Unit> -> nat) returns (found: seq<Found>)
    ensures Exhaustive(text, hash, found)
  {
    SignaturesAreSearchable();
    found := [];
    var lineStart, lineNumber := 0, 1;
    while lineStart <= |text|
      invariant lineStart <= |text| && IsLine(text, lineStart, LineEnd(text, lineStart))
      invariant lineNumber == LineNumber(text, lineStart)
      invariant Progress(text, hash, found, lineStart, LineEnd(text, lineStart), 0)
      decreases |text| - lineStart
    {
      var newline := IndexOf(text, [LF], lineStart);
      var lineEnd := if newline == -1 then |text| else newline;
      LineEndIsNext(text, lineStart, newline);
      var lineText := text[lineStart..lineEnd];
      var lineHash := hash(lineText);
      var sig := 0;
      while sig < |SIGNATURES|
        invariant sig <= |SIGNATURES| && Progress(text, hash, found, lineStart, lineEnd, sig)
      {
        var positions := SearchLine(lineText, SIGNATURES[sig]);
        EntriesProgress(text, hash, found, lineStart, lineEnd, sig, positions);
        found := found + Entries(sig, lineNumber, lineHash, lineStart, positions);
        sig := sig + 1;
      }
      if newline == -1 {
        AllLinesDone(text, hash, found, lineStart);
        return;
      }
      NextLine(text, hash, found, lineStart, lineEnd);
      lineStart := lineEnd + 1;
      lineNumber := lineNumber + 1;
    }
  }

  lemma LineEndIsNext(text: seq<Unit>, a: nat, newline: int)
    requires a <= |text|
    requires newline == -1 ==> forall g | a <= g :: !MatchAt(text, [LF], g)
    requires newline != -1 ==>
              a <= newline && MatchAt(text, [LF], newline) && forall g | a <= g < newline :: !MatchAt(text, [LF], g)
    ensures LineEnd(text, a) == if newline == -1 then |text| else newline
    ensures newline != -1 ==> newline < |text| && text[newline] == LF
  {
    forall g | a <= g < |text| ensures MatchAt(text, [LF], g) <==> text[g] == LF {
      assert text[g..g + 1] == [text[g]];
    }
  }

  lemma AllLinesDone(text: seq<Unit>, hash: seq<Unit> -> nat, found: seq<Found>, a: nat)
    requires a <= |text| && Progress(text, hash, found, a, |text|, |SIGNATURES|)
    ensures Exhaustive(text, hash, found)
  {
    SignaturesAreSearchable();
  }

  // ----- offsets of the occurrences

  // A signature starts a character of the decoded text, so the resolver never fails
  // on the scanner's own occurrences.
  lemma OccurrenceIsBoundary(text: seq<Unit>, s: seq<Unit>, g: nat)
    requires Searchable(s) && MatchAt(text, s, g)
    ensures IsBoundary(text, g)
  {
    assert text[g] == text[g..g + |s|][0] == s[0];
  }

  lemma OneUnitCharacter(cs: seq<Scalar>, m: nat, u: nat)
    requires m <= |cs| && UnitStart(cs, m) == u < |Units(cs)| && !High(Units(cs)[u])
    ensures m < |cs| && cs[m] == Units(cs)[u] && UnitStart(cs, m + 1) == u + 1
  {
    hide Units, UnitStart, Encode, EncodeAll, EncodeUnits, CharWidth;
    NotDone(cs, m);
    CharacterAt(cs, m);
    NextCharacter(cs, m);
  }

  // The decoded characters under a match are the signature's own.
  lemma {:induction false} MatchedCharacters(cs: seq<Scalar>, s: seq<Unit>, g: nat, n: nat, k: nat)
    requires Searchable(s) && MatchAt(Units(cs), s, g) && n <= |cs| && UnitStart(cs, n) == g && k <= |s|
    ensures n + k <= |cs| && UnitStart(cs, n + k) == g + k
    ensures forall j | 0 <= j < k :: cs[n + j] == s[j]
  {
    hide Units, UnitStart;
    if k > 0 {
      MatchedCharacters(cs, s, g, n, k - 1);
      MatchUnits(Units(cs), s, g);
      assert Units(cs)[g + k - 1] == s[k - 1];
      OneUnitCharacter(cs, n + k - 1, g + k - 1);
    }
  }

  lemma OccurrenceIsCharacter(cs: seq<Scalar>, s: seq<Unit>, g: nat) returns (n: nat)
    requires Searchable(s) && MatchAt(Units(cs), s, g)
    ensures n <= |cs| && UnitStart(cs, n) == g
  {
    hide EncodeUnits, IsBoundary;
    OccurrenceIsBoundary(Units(cs), s, g);
    assert cs[..|cs|] == cs;
    n := BoundaryIsCharacter(cs, g, |cs|);
  }

  // The offsets the resolver gives a reported occurrence are those of a character of
  // the decoded text, and the file holds the signature's own bytes there.
  lemma OccurrencePointsAtBytes(bytes: seq<Byte>, byteBase: nat, cs: seq<Scalar>, s: seq<Unit>, g: nat) returns (n: nat)
    requires Decodes(bytes, byteBase, cs) && Searchable(s) && MatchAt(Units(cs), s, g)
    ensures n + |s| <= |cs| && forall j | 0 <= j < |s| :: cs[n + j] == s[j]
    ensures OffsetsAt(cs, n, Units(cs), g)
    ensures byteBase + |EncodeAll(cs[..n])| + |EncodeAll(cs[n..n + |s|])| <= |bytes|
    ensures bytes[byteBase + |EncodeAll(cs[..n])|..][..|EncodeAll(cs[n..n + |s|])|] == EncodeAll(cs[n..n + |s|])
  {
    hide EncodeAll, Encode, Units, EncodeUnits, Decodes, MatchAt, Searchable, OffsetsAt;
    n := OccurrenceIsCharacter(cs, s, g);
    MatchedCharacters(cs, s, g, n, |s|);
    OffsetsOfCharacter(cs, n);
    BytesAtCharacter(bytes, byteBase, cs, n, n + |s|);
  }

  // ----- an occurrence is named by its signature, line and rank

  ghost predicate KeysAreUnique(found: seq<Found>) {
    forall i, j | 0 <= i < j < |found| ::
      !(found[i].sig == found[j].sig && found[i].line == found[j].line && found[i].occurrence == found[j].occurrence)
  }

  lemma {:induction false} LineNumbersGrow(text: seq<Unit>, g: nat, h: nat)
    requires g <= h <= |text|
    ensures LineNumber(text, g) <= LineNumber(text, h)
    ensures LineNumber(text, g) == LineNumber(text, h) ==> forall k | g <= k < h :: text[k] != LF
    decreases h
  {
    if g < h {
      LineNumbersGrow(text, g, h - 1);
    }
  }

  lemma {:induction false} RanksGrow(line: seq<Unit>, s: seq<Unit>, g: nat, h: nat)
    requires g < h && MatchAt(line, s, g)
    ensures MatchesBefore(line, s, g) < MatchesBefore(line, s, h)
    decreases h
  {
    if g < h - 1 {
      RanksGrow(line, s, g, h - 1);
    }
  }

  lemma SameLineSameText(text: seq<Unit>, g: nat, h: nat)
    requires g <= h <= |text| && LineNumber(text, g) == LineNumber(text, h)
    ensures LineStart(text, g) == LineStart(text, h) && LineEnd(text, g) == LineEnd(text, h)
  {
    LineNumbersGrow(text, g, h);
    var a := LineStart(text, g);
    assert LineStart(text, a) == a;
    SameLine(text, a, g);
    SameLine(text, a, h);
  }

  lemma MatchOnItsLine(text: seq<Unit>, s: seq<Unit>, g: nat)
    requires Searchable(s) && MatchAt(text, s, g)
    ensures g <= |text| && MatchAt(LineText(text, g), s, g - LineStart(text, g))
  {
    MatchUnits(text, s, g);
    assert text[g] == s[0] != LF;
    MatchIsLocal(text, s, LineStart(text, g), LineEnd(text, g), g);
  }

  lemma KeyNamesOneMatch(text: seq<Unit>, hash: seq<Unit> -> nat, e: Found, f: Found)
    requires Truthful(text, hash, e) && Truthful(text, hash, f) && e.index < f.index
    ensures !(e.sig == f.sig && e.line == f.line && e.occurrence == f.occurrence)
  {
    if e.sig == f.sig && e.line == f.line {
      hide Searchable, LineStart, LineEnd, LineNumber, MatchAt, MatchesBefore;
      SameLineSameText(text, e.index, f.index);
      SignaturesAreSearchable();
      MatchOnItsLine(text, SIGNATURES[e.sig], e.index);
      var a := LineStart(text, e.index);
      RanksGrow(LineText(text, e.index), SIGNATURES[e.sig], e.index - a, f.index - a);
    }
  }

  lemma ExhaustiveKeysAreUnique(text: seq<Unit>, hash: seq<Unit> -> nat, found: seq<Found>)
    requires Exhaustive(text, hash, found)
    ensures KeysAreUnique(found)
  {
    forall i, j | 0 <= i < j < |found|
      ensures !(found[i].sig == found[j].sig && found[i].line == found[j].line
                && found[i].occurrence == found[j].occurrence)
    {
      assert found[i] in found && found[j] in found;
      if found[i].index < found[j].index {
        KeyNamesOneMatch(text, hash, found[i], found[j]);
      } else if found[j].index < found[i].index {
        KeyNamesOneMatch(text, hash, found[j], found[i]);
      }
    }
  }
}
