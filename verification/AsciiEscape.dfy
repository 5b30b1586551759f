// How findings print paths and reasons: printable ASCII only, and nothing is confused.
module AsciiEscape {
  import opened Utf8

  // What the iteration of a JavaScript string yields; lone surrogates included.
  type CodePoint = x: int | 0 <= x < 0x110000

  const SLASH: Byte := '\\' as int
  const U: Byte := 'u' as int
  const LEFT: Byte := '{' as int
  const RIGHT: Byte := '}' as int

  function HexDigit(d: nat): Byte
    requires d < 16
  {
    if d < 10 then '0' as int + d else 'a' as int + (d - 10)
  }

  predicate IsHexDigit(b: Byte) {
    '0' as int <= b <= '9' as int || 'a' as int <= b <= 'f' as int
  }

  predicate AllHex(s: seq<Byte>) {
    forall k | 0 <= k < |s| :: IsHexDigit(s[k])
  }

  function Hex(n: nat): (s: seq<Byte>)
    ensures s != [] && AllHex(s)
  {
    if n < 16 then [HexDigit(n)] else Hex(n / 16) + [HexDigit(n % 16)]
  }

  function PadTo4(s: seq<Byte>): (p: seq<Byte>)
    requires AllHex(s)
    ensures AllHex(p) && (|s| <= 4 ==> |p| == 4)
    decreases 4 - |s|
  {
    if |s| >= 4 then s else PadTo4(['0' as int] + s)
  }

  function Escape(c: CodePoint): seq<Byte> {
    if c == SLASH then [SLASH, SLASH]
    else if 0x20 <= c <= 0x7E then [c]
    else if c <= 0xFFFF then [SLASH, U] + PadTo4(Hex(c))
    else [SLASH, U, LEFT] + Hex(c) + [RIGHT]
  }

  function EscapeAll(value: seq<CodePoint>): seq<Byte> {
    if value == [] then [] else EscapeAll(value[..|value| - 1]) + Escape(value[|value| - 1])
  }

  method AsciiEscape(value: seq<CodePoint>) returns (output: seq<Byte>)
    ensures output == EscapeAll(value)
  {
    output := [];
    for n := 0 to |value|
      invariant output == EscapeAll(value[..n])
    {
      assert value[..n + 1][..n] == value[..n];
      var codePoint := value[n];
      if codePoint == SLASH {
        output := output + [SLASH, SLASH];
      } else if 0x20 <= codePoint <= 0x7E {
        output := output + [codePoint];
      } else if codePoint <= 0xFFFF {
        output := output + ([SLASH, U] + PadTo4(Hex(codePoint)));
      } else {
        output := output + ([SLASH, U, LEFT] + Hex(codePoint) + [RIGHT]);
      }
    }
    assert value[..|value|] == value;
  }

  // Everything printed is printable ASCII, so a finding stays on one line.
  lemma {:induction false} EscapeIsPrintable(value: seq<CodePoint>)
    ensures forall k | 0 <= k < |EscapeAll(value)| :: 0x20 <= EscapeAll(value)[k] <= 0x7E
  {
    hide Escape;
    if value != [] {
      EscapeIsPrintable(value[..|value| - 1]);
      OneIsPrintable(value[|value| - 1]);
    }
  }

  lemma OneIsPrintable(c: CodePoint)
    ensures forall k | 0 <= k < |Escape(c)| :: 0x20 <= Escape(c)[k] <= 0x7E
  {
    hide Hex, PadTo4;
    if c <= 0xFFFF {
      assert AllHex(PadTo4(Hex(c)));
    } else {
      assert AllHex(Hex(c));
    }
  }

  function HexDigitValue(b: Byte): nat
    requires IsHexDigit(b)
  {
    if b <= '9' as int then b - '0' as int else b - 'a' as int + 10
  }

  function HexValue(s: seq<Byte>): nat
    requires AllHex(s)
  {
    if s == [] then 0 else 16 * HexValue(s[..|s| - 1]) + HexDigitValue(s[|s| - 1])
  }

  lemma {:induction false} HexValueOfHex(n: nat)
    ensures HexValue(Hex(n)) == n
  {
    var s := Hex(n);
    if n >= 16 {
      HexValueOfHex(n / 16);
      assert s[..|s| - 1] == Hex(n / 16);
    } else {
      assert s[..|s| - 1] == [];
    }
  }

  lemma {:induction false} LeadingZero(s: seq<Byte>)
    requires AllHex(s)
    ensures HexValue(['0' as int] + s) == HexValue(s)
  {
    var t: seq<Byte> := ['0' as int] + s;
    if s == [] {
      assert t[..0] == [];
    } else {
      LeadingZero(s[..|s| - 1]);
      assert t[..|t| - 1] == ['0' as int] + s[..|s| - 1];
    }
  }

  lemma {:induction false} PadKeepsValue(s: seq<Byte>)
    requires AllHex(s)
    ensures HexValue(PadTo4(s)) == HexValue(s)
    decreases 4 - |s|
  {
    if |s| < 4 {
      LeadingZero(s);
      PadKeepsValue(['0' as int] + s);
    }
  }

  lemma HexIsShort(n: nat)
    requires n <= 0xFFFF
    ensures |Hex(n)| <= 4
  {
    HexStep(n / 16 / 16 / 16, 0);
    HexStep(n / 16 / 16, 1);
    HexStep(n / 16, 2);
    HexStep(n, 3);
  }

  lemma HexStep(n: nat, k: nat)
    requires n < 16 || |Hex(n / 16)| <= k
    ensures |Hex(n)| <= k + 1
  {
  }

  // The forms of an escape, told apart by their first units.
  lemma EscapeForm(c: CodePoint)
    ensures Escape(c) != []
    ensures Escape(c)[0] != SLASH ==> Escape(c) == [c]
    ensures Escape(c)[0] == SLASH ==> |Escape(c)| >= 2
    ensures Escape(c)[0] == SLASH && Escape(c)[1] == SLASH ==> c == SLASH && Escape(c) == [SLASH, SLASH]
    ensures Escape(c)[0] == SLASH && Escape(c)[1] != SLASH ==> |Escape(c)| >= 4
    ensures Escape(c)[0] == SLASH && Escape(c)[1] != SLASH && Escape(c)[2] != LEFT ==>
              |Escape(c)| == 6 && AllHex(Escape(c)[2..]) && HexValue(Escape(c)[2..]) == c
    ensures Escape(c)[0] == SLASH && Escape(c)[1] != SLASH && Escape(c)[2] == LEFT ==>
              && Escape(c)[|Escape(c)| - 1] == RIGHT && AllHex(Escape(c)[3..|Escape(c)| - 1])
              && HexValue(Escape(c)[3..|Escape(c)| - 1]) == c
  {
    if c != SLASH && !(0x20 <= c <= 0x7E) {
      hide Hex, PadTo4, AllHex;
      if c <= 0xFFFF {
        ShortForm(c);
      } else {
        LongForm(c);
      }
    }
  }

  lemma ShortForm(c: CodePoint)
    requires c != SLASH && !(0x20 <= c <= 0x7E) && c <= 0xFFFF
    ensures Escape(c)[2..] == PadTo4(Hex(c)) && |Escape(c)| == 6 && HexValue(PadTo4(Hex(c))) == c
    ensures Escape(c)[0] == SLASH && Escape(c)[1] == U && Escape(c)[2] != LEFT
  {
    HexValueOfHex(c);
    PadKeepsValue(Hex(c));
    HexIsShort(c);
    hide Hex, PadTo4, HexValue;
    assert IsHexDigit(PadTo4(Hex(c))[0]);
  }

  lemma LongForm(c: CodePoint)
    requires c > 0xFFFF
    ensures |Escape(c)| >= 4 && Escape(c)[3..|Escape(c)| - 1] == Hex(c) && HexValue(Hex(c)) == c
    ensures Escape(c)[0] == SLASH && Escape(c)[1] == U && Escape(c)[2] == LEFT && Escape(c)[|Escape(c)| - 1] == RIGHT
  {
    HexValueOfHex(c);
    hide Hex, HexValue, PadTo4;
  }

  // No escape is the beginning of another one.
  lemma EscapesArePrefixFree(c: CodePoint, d: CodePoint, xs: seq<Byte>, ys: seq<Byte>)
    requires Escape(c) + xs == Escape(d) + ys
    ensures c == d && xs == ys
  {
    EscapeForm(c);
    EscapeForm(d);
    hide Escape;
    var e, f := Escape(c), Escape(d);
    assert (e + xs)[0] == e[0] && (f + ys)[0] == f[0];
    if e[0] == SLASH {
      assert (e + xs)[1] == e[1] && (f + ys)[1] == f[1];
      if e[1] != SLASH {
        assert (e + xs)[2] == e[2] && (f + ys)[2] == f[2];
        if e[2] == LEFT {
          SameBraces(e, xs, f, ys);
        }
      }
    }
    SameLengths(e, xs, f, ys);
  }

  lemma SameBraces(e: seq<Byte>, xs: seq<Byte>, f: seq<Byte>, ys: seq<Byte>)
    requires e + xs == f + ys && |e| >= 4 && |f| >= 4
    requires e[|e| - 1] == RIGHT && f[|f| - 1] == RIGHT && AllHex(e[3..|e| - 1]) && AllHex(f[3..|f| - 1])
    ensures |e| == |f|
  {
    if |e| < |f| {
      BraceInside(e, xs, f, ys);
    } else if |f| < |e| {
      BraceInside(f, ys, e, xs);
    }
  }

  lemma BraceInside(e: seq<Byte>, xs: seq<Byte>, f: seq<Byte>, ys: seq<Byte>)
    requires e + xs == f + ys && 4 <= |e| < |f| && e[|e| - 1] == RIGHT
    ensures !AllHex(f[3..|f| - 1])
  {
    assert (e + xs)[|e| - 1] == (f + ys)[|e| - 1];
    assert f[3..|f| - 1][|e| - 4] == RIGHT;
  }

  lemma SameLengths(e: seq<Byte>, xs: seq<Byte>, f: seq<Byte>, ys: seq<Byte>)
    requires e + xs == f + ys && |e| == |f|
    ensures e == f && xs == ys
  {
    assert e == (e + xs)[..|e|] == (f + ys)[..|f|] == f;
    assert xs == (e + xs)[|e|..] == (f + ys)[|f|..] == ys;
  }

  lemma {:induction false} EscapeSplits(value: seq<CodePoint>)
    requires value != []
    ensures EscapeAll(value) == Escape(value[0]) + EscapeAll(value[1..])
  {
    hide Escape;
    if |value| == 1 {
      assert value[..0] == [] && value[1..] == [];
    } else {
      var front := value[..|value| - 1];
      EscapeSplits(front);
      var last := value[|value| - 1];
      assert front[0] == value[0] && value[1..][..|value| - 2] == front[1..];
      assert (Escape(value[0]) + EscapeAll(front[1..])) + Escape(last)
          == Escape(value[0]) + (EscapeAll(front[1..]) + Escape(last));
    }
  }

  // Different texts print differently.
  lemma {:induction false} EscapeIsInjective(a: seq<CodePoint>, b: seq<CodePoint>)
    requires EscapeAll(a) == EscapeAll(b)
    ensures a == b
  {
    hide Escape, EscapeAll;
    if a != [] && b != [] {
      EscapeSplits(a);
      EscapeSplits(b);
      EscapesArePrefixFree(a[0], b[0], EscapeAll(a[1..]), EscapeAll(b[1..]));
      EscapeIsInjective(a[1..], b[1..]);
      assert a == [a[0]] + a[1..] && b == [b[0]] + b[1..];
    } else {
      EmptyIsAlone(a, b);
    }
  }

  lemma EmptyIsAlone(a: seq<CodePoint>, b: seq<CodePoint>)
    requires EscapeAll(a) == EscapeAll(b) && (a == [] || b == [])
    ensures a == b
  {
    if a != [] {
      EscapeForm(a[|a| - 1]);
    }
    if b != [] {
      EscapeForm(b[|b| - 1]);
    }
  }
}
