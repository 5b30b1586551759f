// Canonical decimal numbers in ASCII.
module Decimals {
  import opened Utf8

  predicate IsDigit(b: Byte) {
    '0' as int <= b <= '9' as int
  }

  function Digit(d: nat): Byte
    requires d < 10
  {
    '0' as int + d
  }

  // The printer.
  function Dec(n: nat): (s: seq<Byte>)
    ensures s != [] && forall k | 0 <= k < |s| :: IsDigit(s[k])
  {
    if n < 10 then [Digit(n)] else Dec(n / 10) + [Digit(n % 10)]
  }

  predicate IsDigits(s: seq<Byte>) {
    forall k | 0 <= k < |s| :: IsDigit(s[k])
  }

  // No leading zero, except in zero itself.
  predicate Canonical(s: seq<Byte>) {
    IsDigits(s) && s != [] && (s[0] == '0' as int ==> |s| == 1)
  }

  function Value(s: seq<Byte>): nat
    requires IsDigits(s)
  {
    if s == [] then 0 else 10 * Value(s[..|s| - 1]) + (s[|s| - 1] - '0' as int)
  }

  lemma {:induction false} DecIsCanonical(n: nat)
    ensures Canonical(Dec(n)) && Value(Dec(n)) == n
    ensures n > 0 ==> Dec(n)[0] != '0' as int
  {
    if n >= 10 {
      DecIsCanonical(n / 10);
      var s := Dec(n);
      assert s[..|s| - 1] == Dec(n / 10);
    } else {
      assert Dec(n)[..0] == [];
    }
  }

  lemma {:induction false} CanonicalIsDec(s: seq<Byte>)
    requires Canonical(s)
    ensures Dec(Value(s)) == s
    ensures s[0] != '0' as int ==> Value(s) > 0
  {
    var front := s[..|s| - 1];
    if |s| == 1 {
      assert Value(front) == 0;
    } else {
      CanonicalIsDec(front);
      assert Value(s) / 10 == Value(front) && Value(s) % 10 == s[|s| - 1] - '0' as int;
      assert s == front + [s[|s| - 1]];
    }
  }

  function Power10(k: nat): nat {
    if k == 0 then 1 else 10 * Power10(k - 1)
  }

  // A number below a power of ten has at most as many digits.
  lemma {:induction false} DecIsShort(n: nat, k: nat)
    requires k > 0 && n < Power10(k)
    ensures |Dec(n)| <= k
  {
    if n >= 10 {
      assert k > 1 by {
        assert Power10(1) == 10 * Power10(0);
      }
      DecIsShort(n / 10, k - 1);
    }
  }

  lemma {:induction false} DecIsLong(n: nat, k: nat)
    requires n >= Power10(k)
    ensures |Dec(n)| > k
  {
    if k > 0 {
      assert Power10(k - 1) >= 1 by { PowerIsPositive(k - 1); }
      DecIsLong(n / 10, k - 1);
    }
  }

  lemma {:induction false} PowerIsPositive(k: nat)
    ensures Power10(k) >= 1
  {
    if k > 0 {
      PowerIsPositive(k - 1);
    }
  }

  const MAX_SAFE_INTEGER: nat := 0x1F_FFFF_FFFF_FFFF

  lemma Powers()
    ensures Power10(15) == 1000000000000000 && Power10(16) == 10000000000000000
  {
    assert Power10(4) == 10000;
    assert Power10(8) == 10000 * Power10(4);
    assert Power10(12) == 10000 * Power10(8);
  }

  // Sixteen digits are enough for a safe integer, and some need as many.
  lemma SafeIntegersAreShort(n: nat)
    requires n <= MAX_SAFE_INTEGER
    ensures |Dec(n)| <= |Dec(MAX_SAFE_INTEGER)| == 16
  {
    hide Dec, Power10;
    Powers();
    DecIsShort(n, 16);
    DecIsShort(MAX_SAFE_INTEGER, 16);
    DecIsLong(MAX_SAFE_INTEGER, 15);
  }
}
