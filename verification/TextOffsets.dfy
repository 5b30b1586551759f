// Offsets into decoded text: JavaScript strings are UTF-16 code units, findings are
// reported as byte offsets into the UTF-8 file and as character numbers.
module TextOffsets {
  import opened Options
  import opened Utf8

  type Unit = x: int | 0 <= x < 0x10000

  const LF: Unit := '\n' as int

  predicate High(u: Unit) {
    0xD800 <= u < 0xDC00
  }

  predicate Low(u: Unit) {
    0xDC00 <= u < 0xE000
  }

  // ----- characters of a string, well formed or not

  // How many units the character at `i` takes when the string is iterated.
  function CharLen(text: seq<Unit>, i: nat): (n: nat)
    requires i < |text|
    ensures 1 <= n <= 2 && i + n <= |text|
  {
    if High(text[i]) && i + 1 < |text| && Low(text[i + 1]) then 2 else 1
  }

  // `u` does not split a surrogate pair.
  predicate IsBoundary(text: seq<Unit>, u: nat) {
    u <= |text| && !(0 < u < |text| && High(text[u - 1]) && Low(text[u]))
  }

  function LastLen(text: seq<Unit>): (n: nat)
    requires text != []
    ensures 1 <= n <= 2 && n <= |text|
  {
    if |text| >= 2 && High(text[|text| - 2]) && Low(text[|text| - 1]) then 2 else 1
  }

  // Bytes that one unit takes by itself; a lone surrogate is written as U+FFFD.
  function UnitWidth(u: Unit): nat {
    if u < 0x80 then 1 else if u < 0x800 then 2 else 3
  }

  // The simple specification: the size of a whole string in UTF-8, and its characters.
  function Utf8Length(text: seq<Unit>): nat {
    if text == [] then 0
    else if LastLen(text) == 2 then Utf8Length(text[..|text| - 2]) + 4
    else Utf8Length(text[..|text| - 1]) + UnitWidth(text[|text| - 1])
  }

  function CharCount(text: seq<Unit>): nat {
    if text == [] then 0 else CharCount(text[..|text| - LastLen(text)]) + 1
  }

  // The size of the character at `i` as the iteration measures it.
  function CharWidth(text: seq<Unit>, i: nat): nat
    requires i < |text|
  {
    if CharLen(text, i) == 2 then 4 else UnitWidth(text[i])
  }

  // One step of the iteration adds one character to the prefix.
  lemma StepForward(text: seq<Unit>, u: nat)
    requires u < |text| && IsBoundary(text, u)
    ensures IsBoundary(text, u + CharLen(text, u))
    ensures Utf8Length(text[..u + CharLen(text, u)]) == Utf8Length(text[..u]) + CharWidth(text, u)
    ensures CharCount(text[..u + CharLen(text, u)]) == CharCount(text[..u]) + 1
  {
    var n := CharLen(text, u);
    var longer := text[..u + n];
    assert LastLen(longer) == n;
    assert longer[..|longer| - n] == text[..u];
  }

  // ----- the one-pass resolver

  class Occurrence {
    const utf16Index: nat
    var byteOffset: nat
    var codePointOffset: nat

    constructor (utf16Index: nat)
      ensures this.utf16Index == utf16Index
    {
      this.utf16Index := utf16Index;
    }
  }

  ghost predicate Resolved(text: seq<Unit>, byteBase: nat, o: Occurrence)
    reads o
  {
    && IsBoundary(text, o.utf16Index)
    && o.byteOffset == byteBase + Utf8Length(text[..o.utf16Index])
    && o.codePointOffset == CharCount(text[..o.utf16Index])
  }

  predicate Ordered(os: seq<Occurrence>) {
    forall i, j | 0 <= i < j < |os| :: os[i].utf16Index <= os[j].utf16Index
  }

  function Insert(o: Occurrence, os: seq<Occurrence>): seq<Occurrence> {
    if os == [] || o.utf16Index < os[0].utf16Index then [o] + os else [os[0]] + Insert(o, os[1..])
  }

  // Stable: an occurrence goes behind those with the same index.
  function SortByIndex(os: seq<Occurrence>): seq<Occurrence> {
    if os == [] then [] else Insert(os[|os| - 1], SortByIndex(os[..|os| - 1]))
  }

  lemma {:induction false} InsertKeepsAll(o: Occurrence, os: seq<Occurrence>)
    ensures multiset(Insert(o, os)) == multiset(os) + multiset{o}
  {
    if os != [] {
      InsertKeepsAll(o, os[1..]);
      assert os == [os[0]] + os[1..];
    }
  }

  // Nothing in the list comes before `x`.
  predicate AllFrom(x: Occurrence, os: seq<Occurrence>) {
    forall j | 0 <= j < |os| :: x.utf16Index <= os[j].utf16Index
  }

  lemma {:induction false} InsertOrders(o: Occurrence, os: seq<Occurrence>)
    requires Ordered(os)
    ensures Ordered(Insert(o, os))
  {
    if os == [] {
    } else if os[0].utf16Index <= o.utf16Index {
      InsertOrders(o, os[1..]);
      FrontIsLeast(o, os);
      OrderedBehind(os[0], Insert(o, os[1..]));
    } else {
      OrderedBehind(o, os);
    }
  }

  lemma OrderedBehind(x: Occurrence, rest: seq<Occurrence>)
    requires Ordered(rest) && AllFrom(x, rest)
    ensures Ordered([x] + rest)
  {
  }

  lemma FrontIsLeast(o: Occurrence, os: seq<Occurrence>)
    requires Ordered(os) && os != [] && os[0].utf16Index <= o.utf16Index
    ensures AllFrom(os[0], Insert(o, os[1..]))
  {
    var rest := Insert(o, os[1..]);
    InsertKeepsAll(o, os[1..]);
    hide Insert;
    forall j | 0 <= j < |rest| ensures os[0].utf16Index <= rest[j].utf16Index {
      assert rest[j] in multiset(rest);
      assert rest[j] == o || rest[j] in os[1..];
    }
  }

  lemma {:induction false} SortOrders(os: seq<Occurrence>)
    ensures Ordered(SortByIndex(os)) && multiset(SortByIndex(os)) == multiset(os)
  {
    if os != [] {
      SortOrders(os[..|os| - 1]);
      InsertOrders(os[|os| - 1], SortByIndex(os[..|os| - 1]));
      InsertKeepsAll(os[|os| - 1], SortByIndex(os[..|os| - 1]));
      assert os == os[..|os| - 1] + [os[|os| - 1]];
    }
  }

  // All targets at the current position are resolved together.
  method ResolveCurrent(text: seq<Unit>, byteBase: nat, ordered: seq<Occurrence>, start: nat, u: nat,
                        byteOffset: nat, codePointOffset: nat) returns (target: nat)
    requires Ordered(ordered) && start <= |ordered| && IsBoundary(text, u)
    requires byteOffset == byteBase + Utf8Length(text[..u]) && codePointOffset == CharCount(text[..u])
    modifies ordered
    ensures start <= target <= |ordered|
    ensures forall i | start <= i < target :: ordered[i].utf16Index == u && Resolved(text, byteBase, ordered[i])
    ensures target < |ordered| ==> ordered[target].utf16Index != u
    ensures forall o | o in ordered :: old(Resolved(text, byteBase, o)) ==> Resolved(text, byteBase, o)
  {
    target := start;
    while target < |ordered| && ordered[target].utf16Index == u
      invariant start <= target <= |ordered|
      invariant forall i | start <= i < target :: ordered[i].utf16Index == u && Resolved(text, byteBase, ordered[i])
      invariant forall o | o in ordered :: old(Resolved(text, byteBase, o)) ==> Resolved(text, byteBase, o)
    {
      ordered[target].byteOffset := byteOffset;
      ordered[target].codePointOffset := codePointOffset;
      target := target + 1;
    }
  }

  // Still ahead of the position, or already skipped inside a pair and lost.
  ghost predicate Pending(text: seq<Unit>, ordered: seq<Occurrence>, target: nat, u: nat)
    requires target <= |ordered|
  {
    || (forall i | target <= i < |ordered| :: u <= ordered[i].utf16Index)
    || (target < |ordered| && !IsBoundary(text, ordered[target].utf16Index))
  }

  method ResolveOrdered(text: seq<Unit>, byteBase: nat, ordered: seq<Occurrence>) returns (target: nat)
    requires Ordered(ordered)
    modifies ordered
    ensures target <= |ordered|
    ensures forall i | 0 <= i < target :: Resolved(text, byteBase, ordered[i])
    ensures target < |ordered| ==> !IsBoundary(text, ordered[target].utf16Index)
  {
    hide Utf8Length, CharCount, CharLen, CharWidth, Ordered;
    var u, byteOffset, codePointOffset := 0, byteBase, 0;
    target := 0;
    Start(text);
    while u < |text|
      invariant IsBoundary(text, u) && target <= |ordered|
      invariant byteOffset == byteBase + Utf8Length(text[..u]) && codePointOffset == CharCount(text[..u])
      invariant forall i | 0 <= i < target :: Resolved(text, byteBase, ordered[i])
      invariant Pending(text, ordered, target, u)
    {
      var resolved := target;
      target := ResolveCurrent(text, byteBase, ordered, resolved, u, byteOffset, codePointOffset);
      StillPending(text, ordered, resolved, target, u);
      StepForward(text, u);
      SkipIsLost(text, ordered, target, u);
      byteOffset := byteOffset + CharWidth(text, u);
      codePointOffset := codePointOffset + 1;
      u := u + CharLen(text, u);
    }
    var resolved := target;
    target := ResolveCurrent(text, byteBase, ordered, resolved, u, byteOffset, codePointOffset);
    StillPending(text, ordered, resolved, target, u);
  }

  // `ok` is false where the original throws: exactly when some index is outside the
  // text or splits a surrogate pair. Otherwise every occurrence gets its own offsets.
  method ResolveSignatureOffsets(text: seq<Unit>, byteBase: nat, occurrences: seq<Occurrence>) returns (ok: bool)
    modifies occurrences
    ensures ok <==> forall o | o in occurrences :: IsBoundary(text, o.utf16Index)
    ensures ok ==> forall o | o in occurrences :: Resolved(text, byteBase, o)
  {
    var ordered := SortByIndex(occurrences);
    SortOrders(occurrences);
    SameMembers(occurrences, ordered);
    var target := ResolveOrdered(text, byteBase, ordered);
    ok := target == |ordered|;
  }

  lemma SameMembers(os: seq<Occurrence>, ps: seq<Occurrence>)
    requires multiset(os) == multiset(ps)
    ensures forall i | 0 <= i < |ps| :: ps[i] in os
    ensures forall i | 0 <= i < |os| :: os[i] in ps
  {
    forall i | 0 <= i < |ps| ensures ps[i] in os {
      assert ps[i] in multiset(ps);
    }
    forall i | 0 <= i < |os| ensures os[i] in ps {
      assert os[i] in multiset(os);
    }
  }

  lemma Start(text: seq<Unit>)
    ensures IsBoundary(text, 0) && Utf8Length(text[..0]) == 0 && CharCount(text[..0]) == 0
  {
  }

  lemma StillPending(text: seq<Unit>, ordered: seq<Occurrence>, before: nat, target: nat, u: nat)
    requires Ordered(ordered) && before <= target <= |ordered|
    requires Pending(text, ordered, before, u) && IsBoundary(text, u)
    requires forall i | before <= i < target :: ordered[i].utf16Index == u
    ensures Pending(text, ordered, target, u)
    ensures u == |text| && target < |ordered| && ordered[target].utf16Index != u ==>
              !IsBoundary(text, ordered[target].utf16Index)
  {
  }

  lemma SkipIsLost(text: seq<Unit>, ordered: seq<Occurrence>, target: nat, u: nat)
    requires Ordered(ordered) && target <= |ordered| && u < |text|
    requires Pending(text, ordered, target, u) && (target < |ordered| ==> ordered[target].utf16Index != u)
    ensures Pending(text, ordered, target, u + CharLen(text, u))
  {
  }

  // ----- decoded text

  function EncodeUnits(c: Scalar): (us: seq<Unit>)
    ensures 1 <= |us| <= 2
  {
    if c < 0x10000 then [c] else [0xD800 + (c - 0x10000) / 0x400, 0xDC00 + (c - 0x10000) % 0x400]
  }

  function Units(cs: seq<Scalar>): seq<Unit> {
    if cs == [] then [] else Units(cs[..|cs| - 1]) + EncodeUnits(cs[|cs| - 1])
  }

  function CodePointAt(text: seq<Unit>, i: nat): nat
    requires i < |text|
  {
    var first: int := text[i];
    if CharLen(text, i) == 2 then
      var second: int := text[i + 1];
      0x10000 + (first - 0xD800) * 0x400 + (second - 0xDC00)
    else
      first
  }

  lemma {:induction false} UnitsPrefix(cs: seq<Scalar>, n: nat)
    requires n <= |cs|
    ensures Units(cs[..n]) <= Units(cs)
  {
    if n < |cs| {
      UnitsPrefix(cs[..|cs| - 1], n);
      assert cs[..|cs| - 1][..n] == cs[..n];
    } else {
      assert cs[..n] == cs;
    }
  }

  // Where the `n`th character of a decoded text starts.
  function UnitStart(cs: seq<Scalar>, n: nat): nat
    requires n <= |cs|
  {
    |Units(cs[..n])|
  }

  lemma UnitStartNext(cs: seq<Scalar>, n: nat)
    requires n < |cs|
    ensures UnitStart(cs, n + 1) == UnitStart(cs, n) + |EncodeUnits(cs[n])| <= |Units(cs)|
    ensures Units(cs)[UnitStart(cs, n)..UnitStart(cs, n + 1)] == EncodeUnits(cs[n])
  {
    assert cs[..n + 1][..n] == cs[..n];
    UnitsPrefix(cs, n + 1);
    var u, v := UnitStart(cs, n), UnitStart(cs, n + 1);
    assert Units(cs[..n + 1]) == Units(cs)[..v];
    assert Units(cs)[u..v] == Units(cs[..n + 1])[u..];
  }

  // The units of one character alone: a pair of surrogates that stands for it, or itself.
  lemma UnitsOfOne(c: Scalar)
    ensures |EncodeUnits(c)| == 1 ==>
              var u := EncodeUnits(c)[0]; u == c && !High(u) && UnitWidth(u) == |Encode(c)|
    ensures |EncodeUnits(c)| == 2 ==>
              var first: int, second: int := EncodeUnits(c)[0], EncodeUnits(c)[1];
              && 0xD800 <= first < 0xDC00 && 0xDC00 <= second < 0xE000 && |Encode(c)| == 4
              && 0x10000 + (first - 0xD800) * 0x400 + (second - 0xDC00) == c
  {
  }

  // Iterating the string yields the decoded characters one by one.
  lemma CharacterAt(cs: seq<Scalar>, n: nat)
    requires n < |cs|
    ensures UnitStart(cs, n) < |Units(cs)|
    ensures CodePointAt(Units(cs), UnitStart(cs, n)) == cs[n]
    ensures CharLen(Units(cs), UnitStart(cs, n)) == |EncodeUnits(cs[n])|
    ensures CharWidth(Units(cs), UnitStart(cs, n)) == |Encode(cs[n])|
  {
    hide EncodeUnits, Encode, Units, UnitStart;
    UnitStartNext(cs, n);
    UnitsOfOne(cs[n]);
    var text, u := Units(cs), UnitStart(cs, n);
    var us := EncodeUnits(cs[n]);
    assert text[u..u + |us|][0] == us[0] == text[u];
    if |us| == 2 {
      assert text[u..u + |us|][1] == us[1] == text[u + 1];
    }
  }

  // The specification offsets at `u` are those of the `n`th decoded character: its
  // number, and the size of what the decoder read before it.
  ghost predicate OffsetsAt(cs: seq<Scalar>, n: nat, text: seq<Unit>, u: nat)
    requires n <= |cs|
  {
    && IsBoundary(text, u)
    && Utf8Length(text[..u]) == |EncodeAll(cs[..n])|
    && CharCount(text[..u]) == n
  }

  lemma OffsetsStep(cs: seq<Scalar>, n: nat, text: seq<Unit>, u: nat)
    requires n < |cs| && text == Units(cs) && u == UnitStart(cs, n) && OffsetsAt(cs, n, text, u)
    ensures OffsetsAt(cs, n + 1, text, UnitStart(cs, n + 1))
  {
    hide Units, UnitStart, EncodeAll, EncodeUnits, Encode, Utf8Length, CharCount, CharLen, CharWidth, CodePointAt,
         IsBoundary;
    NextCharacter(cs, n);
    CharacterAt(cs, n);
    StepForward(text, u);
  }

  lemma {:induction false} OffsetsOfCharacter(cs: seq<Scalar>, n: nat)
    requires n <= |cs|
    ensures OffsetsAt(cs, n, Units(cs), UnitStart(cs, n))
  {
    if n == 0 {
      NothingBefore(cs, 0);
      Start(Units(cs));
    } else {
      hide *;
      OffsetsOfCharacter(cs, n - 1);
      OffsetsStep(cs, n - 1, Units(cs), UnitStart(cs, n - 1));
    }
  }

  // Every position that splits no pair is the start of a character, or the end.
  lemma {:induction false} BoundaryIsCharacter(cs: seq<Scalar>, u: nat, k: nat) returns (n: nat)
    requires k <= |cs| && IsBoundary(Units(cs), u) && u <= UnitStart(cs, k)
    ensures n <= k && UnitStart(cs, n) == u
  {
    if u == UnitStart(cs, k) {
      n := k;
    } else {
      NothingBefore(cs, 0);
      NoBoundaryInside(cs, u, k - 1);
      hide *;
      n := BoundaryIsCharacter(cs, u, k - 1);
    }
  }

  lemma NoBoundaryInside(cs: seq<Scalar>, u: nat, k: nat)
    requires k < |cs| && IsBoundary(Units(cs), u) && u < UnitStart(cs, k + 1)
    ensures u <= UnitStart(cs, k)
  {
    hide Units, UnitStart, EncodeUnits, EncodeAll, Encode, CodePointAt, CharWidth;
    NextCharacter(cs, k);
    CharacterAt(cs, k);
  }

  // ----- the character pass

  datatype Kind = EmbeddedMark | CarriageReturn | ForbiddenChar

  datatype CharFinding = CharFinding(kind: Kind, byteOffset: nat, codePointOffset: nat, codePoint: nat)

  const FORBIDDEN_RANGES: seq<(nat, nat)> := [
    (0x0000, 0x0008), (0x000B, 0x001F), (0x007F, 0x009F), (0x061C, 0x061C), (0x200B, 0x200D), (0x200E, 0x200F),
    (0x202A, 0x202E), (0x2060, 0x2060), (0x2066, 0x2069), (0xFFF9, 0xFFFB), (0xFDD0, 0xFDEF)]

  predicate Forbidden(cp: nat) {
    || cp == 0xFFFD
    || 0xFDD0 <= cp <= 0xFDEF
    || cp % 0x10000 == 0xFFFE || cp % 0x10000 == 0xFFFF
    || exists r | r in FORBIDDEN_RANGES :: r.0 <= cp <= r.1
  }

  function Flag(cp: nat): Option<Kind> {
    if cp == 0xFEFF then Some(EmbeddedMark)
    else if cp == 0x0D then Some(CarriageReturn)
    else if Forbidden(cp) then Some(ForbiddenChar)
    else None
  }

  // ----- what the flags mean

  // Controls, without the tab, the line feed and the carriage return.
  predicate Control(c: nat) {
    c <= 0x08 || c == 0x0B || c == 0x0C || 0x0E <= c <= 0x1F || 0x7F <= c <= 0x9F
  }

  // Zero-width, bidirectional and interlinear controls.
  predicate Invisible(c: nat) {
    || 0x200B <= c <= 0x200F || 0x2060 == c
    || 0x061C == c || 0x202A <= c <= 0x202E || 0x2066 <= c <= 0x2069
    || 0xFFF9 <= c <= 0xFFFB
  }

  // The last two places of each of the seventeen planes, and 32 more.
  predicate Noncharacter(c: nat) {
    || 0xFDD0 <= c <= 0xFDEF
    || exists plane: nat :: plane <= 16 && PlaneEnd(plane) - 1 <= c <= PlaneEnd(plane)
  }

  function PlaneEnd(plane: nat): int {
    plane * 0x10000 + 0xFFFF
  }

  predicate Means(c: nat, kind: Kind) {
    match kind
    case EmbeddedMark => c == 0xFEFF
    case CarriageReturn => c == 0x0D
    case ForbiddenChar => Control(c) || Invisible(c) || Noncharacter(c) || c == 0xFFFD
  }

  lemma PlaneEnds(c: Scalar)
    ensures (c % 0x10000 == 0xFFFE || c % 0x10000 == 0xFFFF)
            <==> exists plane: nat :: plane <= 16 && PlaneEnd(plane) - 1 <= c <= PlaneEnd(plane)
  {
    var plane := c / 0x10000;
    assert plane <= 16 && c == plane * 0x10000 + c % 0x10000;
    if c % 0x10000 >= 0xFFFE {
      assert PlaneEnd(plane) - 1 <= c <= PlaneEnd(plane);
    }
  }

  lemma ForbiddenIsMeant(c: Scalar)
    ensures Means(c, ForbiddenChar) <==> Forbidden(c) && c != 0x0D
  {
    PlaneEnds(c);
    assert FORBIDDEN_RANGES[0] == (0x0000, 0x0008) && FORBIDDEN_RANGES[1] == (0x000B, 0x001F);
    assert FORBIDDEN_RANGES[2] == (0x007F, 0x009F) && FORBIDDEN_RANGES[3] == (0x061C, 0x061C);
    assert FORBIDDEN_RANGES[4] == (0x200B, 0x200D) && FORBIDDEN_RANGES[5] == (0x200E, 0x200F);
    assert FORBIDDEN_RANGES[6] == (0x202A, 0x202E) && FORBIDDEN_RANGES[7] == (0x2060, 0x2060);
    assert FORBIDDEN_RANGES[8] == (0x2066, 0x2069) && FORBIDDEN_RANGES[9] == (0xFFF9, 0xFFFB);
    assert FORBIDDEN_RANGES[10] == (0xFDD0, 0xFDEF);
  }

  // A flag is one of three meanings, and no character has two of them.
  lemma FlagIsMeant(c: Scalar, kind: Kind)
    ensures Flag(c) == Some(kind) <==> Means(c, kind)
  {
    ForbiddenIsMeant(c);
    PlaneEnds(c);
    hide Forbidden;
  }

  // The finding is about the `n`th character of the text.
  ghost predicate FindingAt(cs: seq<Scalar>, byteBase: nat, n: nat, f: CharFinding) {
    && n < |cs| && Means(cs[n], f.kind)
    && f.codePoint == cs[n] && f.codePointOffset == n && f.byteOffset == byteBase + |EncodeAll(cs[..n])|
  }

  // Exactly the characters that mean something are found, each once and in order.
  ghost predicate FindsExactly(cs: seq<Scalar>, byteBase: nat, findings: seq<CharFinding>) {
    && (forall f :: f in findings <==> exists n :: FindingAt(cs, byteBase, n, f))
    && forall i, j | 0 <= i < j < |findings| :: findings[i].codePointOffset < findings[j].codePointOffset
  }

  lemma {:induction false} FoundIsMeant(cs: seq<Scalar>, byteBase: nat, f: CharFinding) returns (n: nat)
    requires f in Expected(cs, byteBase)
    ensures FindingAt(cs, byteBase, n, f)
  {
    hide Means, EncodeAll, Flag;
    n := |cs| - 1;
    var front := cs[..n];
    if f in Expected(front, byteBase) {
      n := FoundIsMeant(front, byteBase, f);
      assert front[..n] == cs[..n];
    } else {
      FlagIsMeant(cs[n], f.kind);
    }
  }

  lemma {:induction false} MeantIsFound(cs: seq<Scalar>, byteBase: nat, n: nat, f: CharFinding)
    requires FindingAt(cs, byteBase, n, f)
    ensures f in Expected(cs, byteBase)
  {
    hide Means, EncodeAll, Flag;
    var front := cs[..|cs| - 1];
    if n < |front| {
      assert front[..n] == cs[..n];
      MeantIsFound(front, byteBase, n, f);
    } else {
      FlagIsMeant(cs[n], f.kind);
    }
  }

  // The numbers of the characters grow, and stay below `n`.
  predicate InOrder(found: seq<CharFinding>, n: nat) {
    && (forall i | 0 <= i < |found| :: found[i].codePointOffset < n)
    && forall i, j | 0 <= i < j < |found| :: found[i].codePointOffset < found[j].codePointOffset
  }

  lemma {:induction false} ExpectedInOrder(cs: seq<Scalar>, byteBase: nat)
    ensures InOrder(Expected(cs, byteBase), |cs|)
  {
    hide Flag, EncodeAll;
    if cs != [] {
      var n := |cs| - 1;
      var last :=
        if Flag(cs[n]).Some? then [CharFinding(Flag(cs[n]).value, byteBase + |EncodeAll(cs[..n])|, n, cs[n])] else [];
      assert Expected(cs, byteBase) == Expected(cs[..n], byteBase) + last;
      ExpectedInOrder(cs[..n], byteBase);
      StillInOrder(Expected(cs[..n], byteBase), last, n);
    }
  }

  lemma StillInOrder(before: seq<CharFinding>, last: seq<CharFinding>, n: nat)
    requires |last| <= 1 && (last != [] ==> last[0].codePointOffset == n) && InOrder(before, n)
    ensures InOrder(before + last, n + 1)
  {
  }

  lemma ExpectedIsExact(cs: seq<Scalar>, byteBase: nat)
    ensures FindsExactly(cs, byteBase, Expected(cs, byteBase))
  {
    hide Expected, FindingAt;
    forall f ensures f in Expected(cs, byteBase) <==> exists n :: FindingAt(cs, byteBase, n, f) {
      if f in Expected(cs, byteBase) {
        var n := FoundIsMeant(cs, byteBase, f);
      }
      if n :| FindingAt(cs, byteBase, n, f) {
        MeantIsFound(cs, byteBase, n, f);
      }
    }
    ExpectedInOrder(cs, byteBase);
  }

  // A text of tabs, line feeds and printable ASCII characters is clean.
  lemma {:induction false} PlainTextIsClean(cs: seq<Scalar>, byteBase: nat)
    requires forall n | 0 <= n < |cs| :: cs[n] == 0x09 || cs[n] == 0x0A || 0x20 <= cs[n] <= 0x7E
    ensures Expected(cs, byteBase) == []
  {
    hide Flag;
    if cs != [] {
      var c := cs[|cs| - 1];
      forall kind ensures Flag(c) == Some(kind) <==> Means(c, kind) {
        FlagIsMeant(c, kind);
      }
      assert Flag(c).Some? ==> Means(c, Flag(c).value);
      PlainTextIsClean(cs[..|cs| - 1], byteBase);
    }
  }

  // A text of one character has one finding for each meaning of the character.
  lemma OneCharacter(c: Scalar, byteBase: nat, kind: Kind)
    ensures Expected([c], byteBase) == [CharFinding(kind, byteBase, 0, c)] <==> Means(c, kind)
    ensures Expected([c], byteBase) == [] <==> forall k :: !Means(c, k)
  {
    forall k ensures Flag(c) == Some(k) <==> Means(c, k) {
      FlagIsMeant(c, k);
    }
    hide Means, Flag;
    assert [c][..0] == [] && Expected([], byteBase) == [] && EncodeAll([]) == [];
    assert Flag(c).Some? ==> Expected([c], byteBase) == [CharFinding(Flag(c).value, byteBase, 0, c)];
    assert Flag(c).Some? ==> Means(c, Flag(c).value);
  }

  // One finding for each flagged character, at the size of the text before it.
  function Expected(cs: seq<Scalar>, byteBase: nat): seq<CharFinding> {
    if cs == [] then []
    else
      var front, c := cs[..|cs| - 1], cs[|cs| - 1];
      Expected(front, byteBase)
      + (if Flag(c).Some? then [CharFinding(Flag(c).value, byteBase + |EncodeAll(front)|, |front|, c)] else [])
  }

  method ScanCharacters(text: seq<Unit>, byteBase: nat, ghost cs: seq<Scalar>) returns (findings: seq<CharFinding>)
    requires text == Units(cs)
    ensures findings == Expected(cs, byteBase) && FindsExactly(cs, byteBase, findings)
  {
    hide Encode, EncodeAll, EncodeUnits, Units, UnitStart, CharLen, CharWidth, CodePointAt, Expected, Forbidden,
         FindsExactly;
    findings := [];
    var u, byteOffset, codePointOffset := 0, byteBase, 0;
    ghost var n := 0;
    NothingBefore(cs, byteBase);
    while u < |text|
      invariant n <= |cs| && u == UnitStart(cs, n) <= |text|
      invariant byteOffset == byteBase + |EncodeAll(cs[..n])| && codePointOffset == n
      invariant findings == Expected(cs[..n], byteBase)
    {
      NotDone(cs, n);
      CharacterAt(cs, n);
      NextCharacter(cs, n);
      ExpectedNext(cs, n, byteBase);
      var codePoint := CodePointAt(text, u);
      if codePoint == 0xFEFF {
        findings := findings + [CharFinding(EmbeddedMark, byteOffset, codePointOffset, codePoint)];
      } else if codePoint == 0x0D {
        findings := findings + [CharFinding(CarriageReturn, byteOffset, codePointOffset, codePoint)];
      } else if Forbidden(codePoint) {
        findings := findings + [CharFinding(ForbiddenChar, byteOffset, codePointOffset, codePoint)];
      }
      byteOffset := byteOffset + CharWidth(text, u);
      codePointOffset := codePointOffset + 1;
      u := u + CharLen(text, u);
      n := n + 1;
    }
    NothingAfter(cs, n);
    ExpectedIsExact(cs, byteBase);
  }

  lemma NextCharacter(cs: seq<Scalar>, n: nat)
    requires n < |cs|
    ensures cs[..n + 1][..n] == cs[..n]
    ensures |EncodeAll(cs[..n + 1])| == |EncodeAll(cs[..n])| + |Encode(cs[n])|
    ensures UnitStart(cs, n + 1) == UnitStart(cs, n) + |EncodeUnits(cs[n])| <= |Units(cs)|
  {
    UnitStartNext(cs, n);
    assert cs[..n + 1] == cs[..n] + [cs[n]];
    EncodeAllAppend(cs[..n], [cs[n]]);
    EncodeAllOne(cs[n]);
  }

  lemma NothingBefore(cs: seq<Scalar>, byteBase: nat)
    ensures UnitStart(cs, 0) == 0 && |EncodeAll(cs[..0])| == 0 && Expected(cs[..0], byteBase) == []
  {
  }

  lemma NotDone(cs: seq<Scalar>, n: nat)
    requires n <= |cs| && UnitStart(cs, n) < |Units(cs)|
    ensures n < |cs|
  {
    assert cs[..|cs|] == cs;
  }

  lemma ExpectedNext(cs: seq<Scalar>, n: nat, byteBase: nat)
    requires n < |cs|
    ensures Expected(cs[..n + 1], byteBase) == Expected(cs[..n], byteBase)
      + (if Flag(cs[n]).Some? then [CharFinding(Flag(cs[n]).value, byteBase + |EncodeAll(cs[..n])|, n, cs[n])] else [])
  {
    assert cs[..n + 1][..n] == cs[..n];
  }

  lemma NothingAfter(cs: seq<Scalar>, n: nat)
    requires n <= |cs| && UnitStart(cs, n) >= |Units(cs)|
    ensures n == |cs| && cs[..n] == cs
  {
    if n < |cs| {
      UnitStartNext(cs, n);
    }
  }

  // The bytes of a file and the text that the decoder makes of them: a leading mark
  // is dropped, and the offsets start behind it.
  ghost predicate Decodes(bytes: seq<Byte>, byteBase: nat, cs: seq<Scalar>) {
    && byteBase == (if HasBom(bytes) then 3 else 0)
    && EncodeAll(cs) == bytes[byteBase..]
  }

  lemma DecodesExactlyWellFormed(bytes: seq<Byte>)
    ensures WellFormed(bytes) <==> exists byteBase, cs :: Decodes(bytes, byteBase, cs)
  {
    if HasBom(bytes) {
      if WellFormed(bytes) {
        var all :| EncodeAll(all) == bytes;
        DropBom(bytes, all);
        assert Decodes(bytes, 3, all[1..]);
      }
      if byteBase, cs :| Decodes(bytes, byteBase, cs) {
        BomIsFeff();
        EncodeAllAppend([0xFEFF], cs);
        assert bytes == bytes[..3] + bytes[3..];
        assert WellFormed(bytes);
      }
    } else {
      assert bytes[0..] == bytes;
      if WellFormed(bytes) {
        var all :| EncodeAll(all) == bytes;
        assert Decodes(bytes, 0, all);
      }
    }
  }

  // A run of characters lies in the file at the size of what precedes it.
  lemma BytesAtCharacter(bytes: seq<Byte>, byteBase: nat, cs: seq<Scalar>, n: nat, m: nat)
    requires Decodes(bytes, byteBase, cs) && n <= m <= |cs|
    ensures byteBase + |EncodeAll(cs[..n])| + |EncodeAll(cs[n..m])| <= |bytes|
    ensures bytes[byteBase + |EncodeAll(cs[..n])|..][..|EncodeAll(cs[n..m])|] == EncodeAll(cs[n..m])
  {
    assert cs == cs[..n] + (cs[n..m] + cs[m..]);
    EncodeAllAppend(cs[..n], cs[n..m] + cs[m..]);
    EncodeAllAppend(cs[n..m], cs[m..]);
    hide *;
    var before, here, after := EncodeAll(cs[..n]), EncodeAll(cs[n..m]), EncodeAll(cs[m..]);
    SliceAt(bytes, byteBase, before, here, after);
  }

  lemma SliceAt(bytes: seq<Byte>, byteBase: nat, before: seq<Byte>, here: seq<Byte>, after: seq<Byte>)
    requires byteBase <= |bytes| && bytes[byteBase..] == before + (here + after)
    ensures byteBase + |before| + |here| <= |bytes|
    ensures bytes[byteBase + |before|..][..|here|] == here
  {
    assert bytes[byteBase + |before|..] == bytes[byteBase..][|before|..] == here + after;
  }

  // Every finding of the character pass points at the bytes of the flagged character.
  lemma {:induction false} FindingsPointAtBytes(bytes: seq<Byte>, byteBase: nat, cs: seq<Scalar>, k: nat,
                                                f: CharFinding)
    requires Decodes(bytes, byteBase, cs) && k <= |cs| && f in Expected(cs[..k], byteBase)
    ensures f.codePointOffset < k && cs[f.codePointOffset] == f.codePoint && Flag(f.codePoint) == Some(f.kind)
    ensures f.byteOffset + |Encode(f.codePoint)| <= |bytes|
    ensures bytes[f.byteOffset..][..|Encode(f.codePoint)|] == Encode(f.codePoint)
  {
    hide Encode, EncodeAll, Forbidden;
    if k > 0 {
      ExpectedNext(cs, k - 1, byteBase);
      if f in Expected(cs[..k - 1], byteBase) {
        FindingsPointAtBytes(bytes, byteBase, cs, k - 1, f);
      } else {
        BytesAtCharacter(bytes, byteBase, cs, k - 1, k);
        assert cs[k - 1..k] == [cs[k - 1]];
        EncodeAllOne(cs[k - 1]);
      }
    }
  }

  // No flagged character goes without its finding.
  lemma {:induction false} FlaggedIsFound(cs: seq<Scalar>, byteBase: nat, n: nat, k: nat)
    requires n < k <= |cs| && Flag(cs[n]).Some?
    ensures CharFinding(Flag(cs[n]).value, byteBase + |EncodeAll(cs[..n])|, n, cs[n]) in Expected(cs[..k], byteBase)
  {
    hide *;
    ExpectedNext(cs, k - 1, byteBase);
    if n < k - 1 {
      FlaggedIsFound(cs, byteBase, n, k - 1);
    }
  }
}
