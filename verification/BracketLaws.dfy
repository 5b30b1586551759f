// The matching of brackets once more, by the grammar of balanced text, with the units
// written as numbers; and that it is the matching that `Brackets` counts out.
module BracketLaws {
  import opened TextOffsets
  import opened Lines
  import opened Brackets

  // Exactly `n` backslashes stand directly before `i`.
  predicate RunBefore(line: Text, i: nat, n: nat) {
    && n <= i <= |line| && (forall k | i - n <= k < i :: line[k] == 92)
    && (n < i ==> line[i - n - 1] != 92)
  }

  ghost predicate Unescaped(line: Text, i: nat) {
    exists n: nat :: RunBefore(line, i, n) && n % 2 == 0
  }

  ghost predicate IsOpen(line: Text, i: nat) {
    i < |line| && line[i] == 91 && Unescaped(line, i)
  }

  ghost predicate IsClose(line: Text, i: nat) {
    i < |line| && line[i] == 93 && Unescaped(line, i)
  }

  // Balanced text is empty, or another unit before balanced text, or balanced text in
  // brackets before balanced text.
  ghost predicate Balanced(line: Text, i: nat, j: nat)
    requires i <= j <= |line|
    decreases j - i
  {
    || i == j
    || (!IsOpen(line, i) && !IsClose(line, i) && Balanced(line, i + 1, j))
    || (IsOpen(line, i) && exists k :: i < k < j && Enclosed(line, i, k) && Balanced(line, k + 1, j))
  }

  ghost predicate Enclosed(line: Text, i: nat, k: nat)
    requires i < k < |line|
    decreases k - i
  {
    IsClose(line, k) && Balanced(line, i + 1, k)
  }

  lemma UnescapedIsEven(line: Text, i: nat)
    requires i <= |line|
    ensures Unescaped(line, i) <==> !Escaped(line, i)
  {
    assert RunBefore(line, i, Slashes(line, i));
    forall n: nat | RunBefore(line, i, n) ensures n == Slashes(line, i) {
      RunIsSlashes(line, i, n);
    }
  }

  lemma {:induction false} RunIsSlashes(line: Text, i: nat, n: nat)
    requires RunBefore(line, i, n)
    ensures n == Slashes(line, i)
  {
    if n > 0 {
      assert line[i - 1] == 92;
      RunIsSlashes(line, i - 1, n - 1);
    }
  }

  lemma BracketsAgree(line: Text, i: nat)
    ensures IsOpen(line, i) <==> Opens(line, i)
    ensures IsClose(line, i) <==> Closes(line, i)
  {
    if i < |line| {
      UnescapedIsEven(line, i);
    }
  }

  // ----- balanced text never closes what it did not open, and leaves nothing open

  ghost predicate Level(line: Text, i: nat, j: nat)
    requires i <= j <= |line|
  {
    Depth(line, i, j) == 0 && forall k | i <= k <= j :: Depth(line, i, k) >= 0
  }

  lemma DepthNext(line: Text, i: nat, j: nat)
    requires i < j <= |line|
    ensures Depth(line, i, j)
            == (if IsOpen(line, i) then 1 else if IsClose(line, i) then -1 else 0) + Depth(line, i + 1, j)
  {
    BracketsAgree(line, i);
    DepthSplits(line, i, i + 1, j);
    assert Depth(line, i, i) == 0;
  }

  lemma {:induction false} BalancedIsLevel(line: Text, i: nat, j: nat)
    requires i <= j <= |line| && Balanced(line, i, j)
    ensures Level(line, i, j)
    decreases j - i
  {
    hide IsOpen, IsClose;
    if i < j {
      BracketsAgree(line, i);
      if !IsOpen(line, i) {
        BalancedIsLevel(line, i + 1, j);
        LevelAfterOther(line, i, j);
      } else {
        OpenIsNoClosing(line, i);
        var k :| i < k < j && Enclosed(line, i, k) && Balanced(line, k + 1, j);
        BalancedIsLevel(line, i + 1, k);
        BalancedIsLevel(line, k + 1, j);
        LevelAfterPair(line, i, k, j);
      }
    }
  }

  lemma OpenIsNoClosing(line: Text, i: nat)
    ensures !(IsOpen(line, i) && IsClose(line, i))
  {
  }

  lemma LevelAfterOther(line: Text, i: nat, j: nat)
    requires i < j <= |line| && !IsOpen(line, i) && !IsClose(line, i) && Level(line, i + 1, j)
    ensures Level(line, i, j)
  {
    forall k | i <= k <= j ensures k == j ==> Depth(line, i, k) == 0
      ensures Depth(line, i, k) >= 0
    {
      if k > i {
        DepthNext(line, i, k);
      }
    }
  }

  lemma LevelAfterPair(line: Text, i: nat, k: nat, j: nat)
    requires i < k < j <= |line| && IsOpen(line, i) && IsClose(line, k)
    requires Level(line, i + 1, k) && Level(line, k + 1, j)
    ensures Level(line, i, j)
  {
    OpenIsNoClosing(line, k);
    forall m | i <= m <= j ensures Depth(line, i, m) >= 0 && (m == j ==> Depth(line, i, m) == 0) {
      if m > i {
        DepthNext(line, i, m);
        if m > k {
          DepthSplits(line, i + 1, k, m);
          DepthNext(line, k, m);
        }
      }
    }
  }

  lemma {:induction false} LevelIsBalanced(line: Text, i: nat, j: nat)
    requires i <= j <= |line| && Level(line, i, j)
    ensures Balanced(line, i, j)
    decreases j - i
  {
    hide IsOpen, IsClose;
    if i < j {
      DepthNext(line, i, i + 1);
      assert Depth(line, i + 1, i + 1) == 0;
      if IsOpen(line, i) {
        var k := FirstReturn(line, i, j);
        LevelIsBalanced(line, i + 1, k);
        LevelIsBalanced(line, k + 1, j);
        assert Enclosed(line, i, k);
      } else {
        assert Depth(line, i, i + 1) >= 0;
        LevelBehindOther(line, i, j);
        LevelIsBalanced(line, i + 1, j);
      }
    }
  }

  lemma LevelBehindOther(line: Text, i: nat, j: nat)
    requires i < j <= |line| && !IsOpen(line, i) && !IsClose(line, i) && Level(line, i, j)
    ensures Level(line, i + 1, j)
  {
    var next := i + 1;
    forall k | next <= k <= j ensures Depth(line, next, k) >= 0 && (k == j ==> Depth(line, next, k) == 0) {
      DepthNext(line, i, k);
    }
  }

  // The bracket at `i` is closed at `k` and not before.
  ghost predicate ReturnsAt(line: Text, i: nat, k: nat)
    requires i < k < |line|
  {
    Depth(line, i, k + 1) == 0 && forall m | i < m <= k :: Depth(line, i, m) > 0
  }

  lemma FirstReturn(line: Text, i: nat, j: nat) returns (k: nat)
    requires i < j <= |line| && IsOpen(line, i) && Level(line, i, j)
    ensures i < k < j && IsClose(line, k) && Level(line, i + 1, k) && Level(line, k + 1, j)
  {
    k := ReturnPlace(line, i, j);
    LevelInside(line, i, k);
    LevelBehind(line, i, k, j);
  }

  lemma ReturnPlace(line: Text, i: nat, j: nat) returns (k: nat)
    requires i < j <= |line| && IsOpen(line, i) && Level(line, i, j)
    ensures i < k < j && ReturnsAt(line, i, k)
  {
    DepthNext(line, i, i + 1);
    assert Depth(line, i + 1, i + 1) == 0;
    hide IsOpen, IsClose;
    k := i + 1;
    while Depth(line, i, k + 1) != 0
      invariant i < k < j && forall m | i < m <= k :: Depth(line, i, m) > 0
      decreases j - k
    {
      k := k + 1;
    }
  }

  lemma LevelInside(line: Text, i: nat, k: nat)
    requires i < k < |line| && IsOpen(line, i) && ReturnsAt(line, i, k)
    ensures IsClose(line, k) && Level(line, i + 1, k)
  {
    BracketsAgree(line, k);
    assert Depth(line, i, k + 1) < Depth(line, i, k);
    assert Closes(line, k) && Depth(line, i, k) == 1;
    hide IsOpen, IsClose, Opens, Closes;
    var inside := i + 1;
    forall m | inside <= m <= k ensures Depth(line, inside, m) >= 0 && (m == k ==> Depth(line, inside, m) == 0) {
      DepthNext(line, i, m);
    }
  }

  lemma LevelBehind(line: Text, i: nat, k: nat, j: nat)
    requires i < k < j <= |line| && Level(line, i, j) && ReturnsAt(line, i, k)
    ensures Level(line, k + 1, j)
  {
    hide Opens, Closes;
    var behind := k + 1;
    forall m | behind <= m <= j ensures Depth(line, behind, m) >= 0 && (m == j ==> Depth(line, behind, m) == 0) {
      DepthSplits(line, i, behind, m);
    }
  }

  // Two brackets are partners exactly if they are unescaped, one opens and the other
  // closes, and the text between them is balanced.
  lemma PartnersEncloseBalanced(line: Text, a: nat, b: nat)
    ensures Matches(line, a, b) <==> a < b < |line| && IsOpen(line, a) && IsClose(line, b) && Balanced(line, a + 1, b)
  {
    BracketsAgree(line, a);
    BracketsAgree(line, b);
    OpenIsNoClosing(line, b);
    if a < b < |line| && Opens(line, a) && Closes(line, b) {
      OneLevelDown(line, a, b);
      hide IsOpen, IsClose, Opens, Closes, Level;
      if Matches(line, a, b) {
        LevelIsBalanced(line, a + 1, b);
      }
      if Balanced(line, a + 1, b) {
        BalancedIsLevel(line, a + 1, b);
      }
    }
  }

  lemma OneLevelDown(line: Text, a: nat, b: nat)
    requires a < b < |line| && Opens(line, a) && Closes(line, b)
    ensures Matches(line, a, b) <==> Level(line, a + 1, b)
  {
    BracketsAgree(line, a);
    BracketsAgree(line, b);
    OpenIsNoClosing(line, b);
    hide IsOpen, IsClose, Opens;
    assert !Opens(line, b) by {
      BracketsAgree(line, b);
    }
    assert Depth(line, a, b + 1) == Depth(line, a, b) - 1;
    if Matches(line, a, b) {
      var next := a + 1;
      forall k | next <= k <= b ensures Depth(line, next, k) >= 0 && (k == b ==> Depth(line, next, k) == 0) {
        DepthNext(line, a, k);
      }
    }
    if Level(line, a + 1, b) {
      forall k | a < k <= b ensures Depth(line, a, k) > 0 && (k == b ==> Depth(line, a, k) == 1) {
        DepthNext(line, a, k);
      }
    }
  }
}
