// What the constants and small rules of the text gate mean, in numbers and by shape.
module TextLaws {
  import opened Options
  import opened Utf8
  import opened TextOffsets
  import opened Lines
  import opened Mojibake
  import opened MojibakeExceptions
  import R = RepositoryScan
  import A = AsciiEscape

  // ----- encodings

  lemma KnownEncodings()
    ensures Encode(0x24) == [0x24] && Encode(0xA3) == [0xC2, 0xA3]
    ensures Encode(0x20AC) == [0xE2, 0x82, 0xAC] && Encode(0x1F600) == [0xF0, 0x9F, 0x98, 0x80]
    ensures EncodeUnits(0x20AC) == [0x20AC] && EncodeUnits(0x1F600) == [0xD83D, 0xDE00]
  {
  }

  lemma MarkIsThreeBytes(bytes: seq<Byte>)
    ensures HasBom(bytes) <==> exists rest :: bytes == [0xEF, 0xBB, 0xBF] + rest
  {
    if HasBom(bytes) {
      assert bytes == [0xEF, 0xBB, 0xBF] + bytes[3..];
    }
  }

  // ----- the signatures

  // How Windows-1252 reads a byte; bytes that it does not define stay as they are.
  function Misread(b: Byte): Unit {
    if b < 0x80 || b >= 0xA0 then b
    else
      [0x20AC, 0x81, 0x201A, 0x0192, 0x201E, 0x2026, 0x2020, 0x2021, 0x02C6, 0x2030, 0x0160, 0x2039, 0x0152, 0x8D,
       0x017D, 0x8F, 0x90, 0x2018, 0x2019, 0x201C, 0x201D, 0x2022, 0x2013, 0x2014, 0x02DC, 0x2122, 0x0161, 0x203A,
       0x0153, 0x9D, 0x017E, 0x0178][b - 0x80]
  }

  function MisreadAll(bs: seq<Byte>): seq<Unit> {
    seq(|bs|, k requires 0 <= k < |bs| => Misread(bs[k]))
  }

  // The signatures are the em dash, the en dash, the right arrow, the sign for at least,
  // the middle dot, the section sign and the byte order mark, encoded and read wrongly.
  lemma SignaturesAreMisread()
    ensures |SIGNATURES| == 7
    ensures SIGNATURES[0] == MisreadAll(Encode(0x2014)) && SIGNATURES[1] == MisreadAll(Encode(0x2013))
    ensures SIGNATURES[2] == MisreadAll(Encode(0x2192)) && SIGNATURES[3] == MisreadAll(Encode(0x2265))
    ensures SIGNATURES[4] == MisreadAll(Encode(0x00B7)) && SIGNATURES[5] == MisreadAll(Encode(0x00A7))
    ensures SIGNATURES[6] == MisreadAll(Encode(0xFEFF))
  {
    assert Encode(0x2014) == [0xE2, 0x80, 0x94] && Encode(0x2013) == [0xE2, 0x80, 0x93];
    assert Encode(0x2192) == [0xE2, 0x86, 0x92] && Encode(0x2265) == [0xE2, 0x89, 0xA5];
    assert Encode(0x00B7) == [0xC2, 0xB7] && Encode(0x00A7) == [0xC2, 0xA7] && Encode(0xFEFF) == [0xEF, 0xBB, 0xBF];
  }

  // ----- lines

  function Tens(text: seq<Unit>): nat {
    if text == [] then 0 else Tens(text[..|text| - 1]) + (if text[|text| - 1] == 10 then 1 else 0)
  }

  // A place on a line between line feeds has that line, and the number of line feeds
  // before it, counted from one.
  lemma LineOfPosition(before: seq<Unit>, line: seq<Unit>, after: seq<Unit>, g: nat)
    requires before == [] || before[|before| - 1] == 10
    requires after == [] || after[0] == 10
    requires 10 !in line && |before| <= g <= |before| + |line|
    ensures var text := before + line + after;
      && LineStart(text, g) == |before| && LineEnd(text, g) == |before| + |line| && LineText(text, g) == line
      && LineNumber(text, g) == Tens(before) + 1
  {
    var text := before + line + after;
    assert forall k | |before| <= k < |before| + |line| :: text[k] == line[k - |before|];
    assert text[..|before|] == before;
    NumberIsTens(text, |before|);
    StartsHere(text, |before|, g);
    EndsHere(text, g, |before| + |line|);
    SameLine(text, |before|, g);
    assert text[|before|..|before| + |line|] == line;
  }

  lemma {:induction false} NumberIsTens(text: seq<Unit>, g: nat)
    requires g <= |text|
    ensures LineNumber(text, g) == Tens(text[..g]) + 1
  {
    if g > 0 {
      NumberIsTens(text, g - 1);
      assert text[..g][..g - 1] == text[..g - 1];
    }
  }

  lemma {:induction false} StartsHere(text: seq<Unit>, a: nat, g: nat)
    requires a <= g <= |text| && (a == 0 || text[a - 1] == 10) && forall k | a <= k < g :: text[k] != 10
    ensures LineStart(text, g) == a
    decreases g - a
  {
    if a < g {
      StartsHere(text, a, g - 1);
    }
  }

  lemma {:induction false} EndsHere(text: seq<Unit>, g: nat, b: nat)
    requires g <= b <= |text| && (b == |text| || text[b] == 10) && forall k | g <= k < b :: text[k] != 10
    ensures LineEnd(text, g) == b
    decreases b - g
  {
    if g < b {
      EndsHere(text, g + 1, b);
    }
  }

  // Lines are cut at line feeds and nowhere else.
  lemma LinesAreCutAtTen(line: Text, rest: Text)
    requires 10 !in line
    ensures Split(line) == [line] && Split(line + [10] + rest) == [line] + Split(rest)
  {
    SplitAfter(line);
    SplitAt(line, rest);
  }

  predicate Occurs(line: seq<Unit>, s: seq<Unit>, g: nat) {
    g + |s| <= |line| && line[g..g + |s|] == s
  }

  // The rank of a match is the number of matches that start before it.
  lemma {:induction false} RankIsCount(line: seq<Unit>, s: seq<Unit>, n: nat)
    ensures MatchesBefore(line, s, n) == |set g: nat | g < n && Occurs(line, s, g)|
  {
    var now := set g: nat | g < n && Occurs(line, s, g);
    if n > 0 {
      RankIsCount(line, s, n - 1);
      var before := set g: nat | g < n - 1 && Occurs(line, s, g);
      assert MatchAt(line, s, n - 1) <==> Occurs(line, s, n - 1);
      hide Occurs;
      assert now == if Occurs(line, s, n - 1) then before + {n - 1} else before;
    } else {
      assert now == {};
    }
  }

  // ----- exceptions

  // An exception takes part if nothing is wrong with its fields, its file is a selected
  // text file, and no other such exception has its signature, file, line and rank.
  lemma TakingPartMeans(excs: seq<Exc>, selected: set<string>, binary: set<string>, i: nat)
    requires i < |excs|
    ensures TakesPart(excs, selected, binary, i)
      <==> && excs[i].fault == None && excs[i].path in selected && excs[i].path !in binary
           && forall j | 0 <= j < |excs| && j != i && excs[j].fault == None ::
                || excs[j].sig != excs[i].sig || excs[j].path != excs[i].path
                || excs[j].line != excs[i].line || excs[j].occurrence != excs[i].occurrence
  {
  }

  lemma CoveringMeans(e: Exc, f: Found)
    ensures Covers(e, f) <==> f.sig == e.sig && f.line == e.line && f.occurrence == e.occurrence && f.hash == e.hash
  {
  }

  ghost predicate SomeOfSig(e: Exc, found: seq<Found>) {
    exists f :: f in found && f.sig == e.sig
  }

  ghost predicate SomeOnLine(e: Exc, found: seq<Found>) {
    exists f :: f in found && f.sig == e.sig && f.line == e.line
  }

  ghost predicate SomeOfRank(e: Exc, found: seq<Found>) {
    exists f :: f in found && f.sig == e.sig && f.line == e.line && f.occurrence == e.occurrence
  }

  ghost predicate SomeOther(e: Exc, found: seq<Found>) {
    exists f :: f in found && f.line == e.line && f.occurrence == e.occurrence
  }

  // The reason of an exception that covers nothing is the first that tells it from all
  // occurrences: its signature, its line, its rank, its digest.
  lemma ReasonsMean(e: Exc, found: seq<Found>)
    ensures WhyUnused(e, found) == NoMatchingFinding <==> !SomeOfSig(e, found) && !SomeOther(e, found)
    ensures WhyUnused(e, found) == WrongSignature <==> !SomeOfSig(e, found) && SomeOther(e, found)
    ensures WhyUnused(e, found) == WrongLine <==> SomeOfSig(e, found) && !SomeOnLine(e, found)
    ensures WhyUnused(e, found) == WrongOccurrence <==> SomeOnLine(e, found) && !SomeOfRank(e, found)
    ensures WhyUnused(e, found) == StaleLineHash <==> SomeOfRank(e, found)
  {
    MembersAreIndexed(found);
    assert SomeOfSig(e, found) <==> !forall k | 0 <= k < |found| :: found[k].sig != e.sig;
    assert SomeOnLine(e, found) <==> !forall k | 0 <= k < |found| :: found[k].sig == e.sig ==> found[k].line != e.line;
    assert SomeOfRank(e, found) <==> !forall k | 0 <= k < |found| :: !Names(e, found[k]);
    assert SomeOther(e, found)
      <==> exists k | 0 <= k < |found| :: found[k].line == e.line && found[k].occurrence == e.occurrence;
  }

  lemma MembersAreIndexed(found: seq<Found>)
    ensures forall f | f in found :: exists k :: 0 <= k < |found| && found[k] == f
  {
  }

  // ----- the end of a file

  lemma FinalLineFeed(bytes: seq<Byte>, count: nat)
    ensures R.MissingLf(bytes, count) == None <==> bytes == [] || exists front :: bytes == front + [10]
    ensures R.MissingLf(bytes, count) != None ==> R.MissingLf(bytes, count) == Some(R.Place(|bytes|, count))
  {
    if bytes != [] && bytes[|bytes| - 1] == 10 {
      assert bytes == bytes[..|bytes| - 1] + [10];
    }
  }

  // ----- printing

  // 0 to 9 and a to f.
  function HexCode(d: nat): Byte
    requires d < 16
  {
    if d < 10 then 48 + d else 87 + d
  }

  function FourHex(n: nat): seq<Byte>
    requires n < 0x10000
  {
    [HexCode(n / 0x1000), HexCode(n / 0x100 % 16), HexCode(n / 16 % 16), HexCode(n % 16)]
  }

  lemma HexSteps(n: nat)
    ensures n < 16 ==> A.Hex(n) == [HexCode(n)]
    ensures n >= 16 ==> A.Hex(n) == A.Hex(n / 16) + [HexCode(n % 16)]
  {
  }

  lemma Quarters(n: nat)
    requires n < 0x10000
    ensures n / 16 / 16 == n / 0x100 && n / 16 / 16 / 16 == n / 0x1000 && n / 0x1000 < 16
  {
  }

  // Zeros in front of one, two or three digits.
  lemma {:induction false} Padded(s: seq<Byte>)
    requires A.AllHex(s) && 1 <= |s| <= 4
    ensures |A.PadTo4(s)| == 4 && A.PadTo4(s)[4 - |s|..] == s
    ensures forall k | 0 <= k < 4 - |s| :: A.PadTo4(s)[k] == 48
    decreases 4 - |s|
  {
    if |s| < 4 {
      var t := [48] + s;
      Padded(t);
      assert A.PadTo4(s) == A.PadTo4(t);
      assert A.PadTo4(t)[4 - |t|..][1..] == A.PadTo4(t)[4 - |s|..];
    }
  }

  // The digits of a number are the last of its four digits, behind zeros.
  predicate EndsFour(h: seq<Byte>, n: nat)
    requires n < 0x10000
  {
    && 1 <= |h| <= 4 && FourHex(n)[4 - |h|..] == h
    && forall k | 0 <= k < 4 - |h| :: FourHex(n)[k] == 48
  }

  lemma ShortHex(n: nat)
    requires n < 0x10000
    ensures EndsFour(A.Hex(n), n)
  {
    hide EndsFour;
    HexSteps(n);
    if n < 16 {
      OneDigit(n);
    } else if n < 0x100 {
      HexSteps(n / 16);
      TwoDigits(n);
    } else if n < 0x1000 {
      HexSteps(n / 16);
      HexSteps(n / 16 / 16);
      ThreeDigits(n);
    } else {
      HexSteps(n / 16);
      HexSteps(n / 16 / 16);
      HexSteps(n / 16 / 16 / 16);
      FourDigits(n);
    }
  }

  lemma OneDigit(n: nat)
    requires n < 16
    ensures EndsFour([HexCode(n)], n)
  {
  }

  lemma TwoDigits(n: nat)
    requires 16 <= n < 0x100
    ensures EndsFour([HexCode(n / 16)] + [HexCode(n % 16)], n)
  {
  }

  lemma ThreeDigits(n: nat)
    requires 0x100 <= n < 0x1000
    ensures n / 16 / 16 < 16
    ensures EndsFour([HexCode(n / 16 / 16)] + [HexCode(n / 16 % 16)] + [HexCode(n % 16)], n)
  {
    Quarters(n);
  }

  lemma FourDigits(n: nat)
    requires 0x1000 <= n < 0x10000
    ensures n / 16 / 16 / 16 < 16
    ensures EndsFour([HexCode(n / 16 / 16 / 16)] + [HexCode(n / 16 / 16 % 16)] + [HexCode(n / 16 % 16)]
                     + [HexCode(n % 16)], n)
  {
    Quarters(n);
  }

  lemma PaddedHex(n: nat)
    requires n < 0x10000
    ensures A.PadTo4(A.Hex(n)) == FourHex(n)
  {
    hide A.Hex, A.PadTo4, HexCode;
    ShortHex(n);
    var h, f := A.Hex(n), FourHex(n);
    Padded(h);
    hide FourHex;
    var p := A.PadTo4(h);
    assert p == p[..4 - |h|] + p[4 - |h|..] && f == f[..4 - |h|] + f[4 - |h|..];
    assert p[..4 - |h|] == f[..4 - |h|];
  }

  lemma ZeroCode()
    ensures HexCode(0) == 48 && HexCode(1) == 49
  {
  }

  lemma LowDigits(n: nat, q: nat, m: nat)
    requires n == q * 0x10000 + m && m < 0x10000
    ensures n / 16 == q * 0x1000 + m / 16 && n / 16 / 16 == q * 0x100 + m / 0x100
    ensures n / 16 / 16 / 16 == q * 16 + m / 0x1000 && n / 16 / 16 / 16 / 16 == q
  {
  }

  lemma LastDigit(q: nat, k: nat, m: nat)
    requires k == 0x1000 || k == 0x100 || k == 16 || k == 1
    ensures (q * k * 16 + m) % 16 == m % 16
  {
    assert q * k * 16 + m == (q * k) * 16 + m;
  }

  lemma LongHex(n: nat)
    requires 0x10000 <= n < 0x110000
    ensures A.Hex(n) == (if n < 0x100000 then [HexCode(n / 0x10000)] else [49, 48]) + FourHex(n % 0x10000)
  {
    hide A.Hex, HexCode;
    var q, m := n / 0x10000, n % 0x10000;
    LowDigits(n, q, m);
    LastDigit(q, 0x1000, m);
    LastDigit(q, 0x100, m / 16);
    LastDigit(q, 16, m / 0x100);
    LastDigit(q, 1, m / 0x1000);
    HexSteps(n);
    HexSteps(n / 16);
    HexSteps(n / 16 / 16);
    HexSteps(n / 16 / 16 / 16);
    HighHex(q);
  }

  lemma HighHex(q: nat)
    requires 1 <= q <= 16
    ensures A.Hex(q) == if q < 16 then [HexCode(q)] else [49, 48]
  {
    HexSteps(q);
    HexSteps(1);
  }

  // A backslash is doubled; other printable ASCII stands for itself; all else is written
  // with four digits, or with five or six in braces.
  lemma EscapeMeans(c: A.CodePoint)
    ensures A.Escape(c)
      == if c == 0x5C then [92, 92]
         else if 0x20 <= c <= 0x7E then [c]
         else if c < 0x10000 then [92, 117] + FourHex(c)
         else if c < 0x100000 then [92, 117, 123, HexCode(c / 0x10000)] + FourHex(c % 0x10000) + [125]
         else [92, 117, 123, 49, 48] + FourHex(c % 0x10000) + [125]
  {
    hide A.Hex, FourHex;
    if c < 0x10000 {
      PaddedHex(c);
    } else {
      LongHex(c);
    }
  }
}
