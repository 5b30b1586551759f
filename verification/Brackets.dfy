// Which closing bracket belongs to which opening one, in one pass over a line.
module Brackets {
  import opened TextOffsets
  import opened Lines

  const BACKSLASH: Unit := '\\' as int
  const OPEN: Unit := '[' as int
  const CLOSE: Unit := ']' as int

  // ----- escapes

  // How many backslashes stand directly before `i`.
  function Slashes(line: Text, i: nat): (n: nat)
    requires i <= |line|
    ensures n <= i && forall k | i - n <= k < i :: line[k] == BACKSLASH
    ensures n < i ==> line[i - n - 1] != BACKSLASH
  {
    if i == 0 || line[i - 1] != BACKSLASH then 0 else Slashes(line, i - 1) + 1
  }

  predicate Escaped(line: Text, i: nat)
    requires i <= |line|
  {
    Slashes(line, i) % 2 == 1
  }

  // The backward scan.
  method IsEscaped(text: Text, index: nat) returns (escaped: bool)
    requires index <= |text|
    ensures escaped == Escaped(text, index)
  {
    var slashes, cursor := 0, index as int - 1;
    while cursor >= 0 && text[cursor] == BACKSLASH
      invariant -1 <= cursor < index && slashes == index - 1 - cursor
      invariant Slashes(text, index) == slashes + Slashes(text, cursor + 1)
    {
      slashes := slashes + 1;
      cursor := cursor - 1;
    }
    return slashes % 2 == 1;
  }

  // ----- specification of the matching

  predicate Opens(line: Text, i: nat) {
    i < |line| && line[i] == OPEN && !Escaped(line, i)
  }

  predicate Closes(line: Text, i: nat) {
    i < |line| && line[i] == CLOSE && !Escaped(line, i)
  }

  // Unescaped brackets opened less those closed in `line[a..b]`.
  function Depth(line: Text, a: nat, b: nat): int
    requires a <= b <= |line|
    decreases b
  {
    if a == b then 0
    else Depth(line, a, b - 1) + (if Opens(line, b - 1) then 1 else if Closes(line, b - 1) then -1 else 0)
  }

  // The bracket at `a` is still open everywhere up to `n`.
  ghost predicate OpenUpTo(line: Text, a: nat, n: nat) {
    a < n <= |line| && Opens(line, a) && forall k | a < k <= n :: Depth(line, a, k) > 0
  }

  // The standard matching: `b` is the first place where what `a` opened is closed.
  ghost predicate Matches(line: Text, a: nat, b: nat) {
    OpenUpTo(line, a, b) && b < |line| && Closes(line, b) && Depth(line, a, b + 1) == 0
  }

  lemma {:induction false} DepthSplits(line: Text, a: nat, m: nat, b: nat)
    requires a <= m <= b <= |line|
    ensures Depth(line, a, b) == Depth(line, a, m) + Depth(line, m, b)
    decreases b
  {
    if m < b {
      DepthSplits(line, a, m, b - 1);
    }
  }

  // ----- the pass

  // Place `t` of the stack is open up to `n`, at the depth that its place says.
  ghost predicate OpenedAt(line: Text, n: nat, stack: seq<nat>, t: nat) {
    && n <= |line| && t < |stack| && stack[t] < n
    && OpenUpTo(line, stack[t], n) && Depth(line, stack[t], n) == |stack| - t
  }

  // After `n` units the stack holds the open brackets, innermost last.
  ghost predicate Stacked(line: Text, n: nat, stack: seq<nat>) {
    && (forall t: nat | t < |stack| :: OpenedAt(line, n, stack, t))
    && forall a: nat | OpenUpTo(line, a, n) :: a in stack
  }

  // The map holds the pairs closed before `n`.
  ghost predicate PairsBefore(line: Text, n: nat, closes: map<nat, nat>) {
    forall a: nat, b: nat :: a in closes && closes[a] == b <==> b < n && Matches(line, a, b)
  }

  ghost predicate Paired(line: Text, n: nat, stack: seq<nat>, closes: map<nat, nat>) {
    n <= |line| && Stacked(line, n, stack) && PairsBefore(line, n, closes)
  }

  method ClosingBracketMap(line: Text) returns (closes: map<nat, nat>)
    ensures forall a: nat, b: nat :: a in closes && closes[a] == b <==> Matches(line, a, b)
  {
    hide Paired;
    var stack: seq<nat> := [];
    closes := map[];
    var escapedAt := new bool[|line|];
    var precedingBackslashes := 0;
    NothingPaired(line);
    for index := 0 to |line|
      invariant precedingBackslashes == Slashes(line, index)
      invariant Paired(line, index, stack, closes)
    {
      escapedAt[index] := precedingBackslashes % 2 == 1;
      if line[index] == BACKSLASH {
        precedingBackslashes := precedingBackslashes + 1;
        PairedPast(line, index, stack, closes);
        continue;
      }
      precedingBackslashes := 0;
      if escapedAt[index] {
        PairedPast(line, index, stack, closes);
        continue;
      }
      if line[index] == OPEN {
        PairedOpen(line, index, stack, closes);
        stack := stack + [index];
      } else if line[index] == CLOSE && |stack| > 0 {
        PairedClose(line, index, stack, closes);
        closes := closes[stack[|stack| - 1] := index];
        stack := stack[..|stack| - 1];
      } else {
        PairedPast(line, index, stack, closes);
      }
    }
    AllPaired(line, stack, closes);
  }

  lemma NothingPaired(line: Text)
    ensures Paired(line, 0, [], map[])
  {
  }

  lemma AllPaired(line: Text, stack: seq<nat>, closes: map<nat, nat>)
    requires Paired(line, |line|, stack, closes)
    ensures forall a: nat, b: nat :: a in closes && closes[a] == b <==> Matches(line, a, b)
  {
  }

  // How one more unit changes what is open.
  lemma OpenOneMore(line: Text, n: nat, a: nat)
    requires n < |line|
    ensures OpenUpTo(line, a, n) ==> a < n && Depth(line, a, n) > 0
    ensures a < n ==> Depth(line, a, n + 1)
                      == Depth(line, a, n) + (if Opens(line, n) then 1 else if Closes(line, n) then -1 else 0)
    ensures OpenUpTo(line, a, n + 1) <==>
              if a == n then Opens(line, n) else OpenUpTo(line, a, n) && Depth(line, a, n + 1) > 0
  {
    hide Opens, Closes;
    if a == n {
      assert Depth(line, n, n) == 0;
    } else if OpenUpTo(line, a, n) && Depth(line, a, n + 1) > 0 {
      forall k | a < k <= n + 1 ensures Depth(line, a, k) > 0 {
        assert k <= n || k == n + 1;
      }
    }
  }

  // Past its closing bracket, an opening one is not open again.
  lemma MatchedIsNotOpen(line: Text, a: nat, b: nat, n: nat)
    requires Matches(line, a, b) && b < n
    ensures !OpenUpTo(line, a, n)
  {
  }

  lemma StackMembers(line: Text, n: nat, stack: seq<nat>, closes: map<nat, nat>, a: nat) returns (t: nat)
    requires Paired(line, n, stack, closes) && OpenUpTo(line, a, n)
    ensures t < |stack| && stack[t] == a && a < n && Depth(line, a, n) == |stack| - t
  {
    t :| t < |stack| && stack[t] == a;
    assert OpenedAt(line, n, stack, t);
  }

  // A unit that neither opens nor closes, or closes with nothing open.
  lemma PairedPast(line: Text, n: nat, stack: seq<nat>, closes: map<nat, nat>)
    requires n < |line| && Paired(line, n, stack, closes)
    requires !Opens(line, n) && (Closes(line, n) ==> stack == [])
    ensures Paired(line, n + 1, stack, closes)
  {
    hide Opens, Closes, Depth, OpenUpTo, Matches;
    var m := n + 1;
    forall t: nat | t < |stack| ensures OpenedAt(line, m, stack, t) {
      assert OpenedAt(line, n, stack, t);
      PastOneMore(line, n, stack, closes, stack[t]);
    }
    forall a: nat | OpenUpTo(line, a, n + 1) ensures a in stack {
      PastOneMore(line, n, stack, closes, a);
    }
    forall a: nat ensures !Matches(line, a, n) {
      PastOneMore(line, n, stack, closes, a);
    }
    PairsSame(line, n, closes);
  }

  lemma PairsSame(line: Text, n: nat, closes: map<nat, nat>)
    requires PairsBefore(line, n, closes) && forall a: nat :: !Matches(line, a, n)
    ensures PairsBefore(line, n + 1, closes)
  {
    hide Matches;
  }

  lemma PastOneMore(line: Text, n: nat, stack: seq<nat>, closes: map<nat, nat>, a: nat)
    requires n < |line| && Paired(line, n, stack, closes)
    requires !Opens(line, n) && (Closes(line, n) ==> stack == [])
    ensures OpenUpTo(line, a, n + 1) <==> OpenUpTo(line, a, n)
    ensures !Matches(line, a, n)
    ensures OpenUpTo(line, a, n) ==> a < n && Depth(line, a, n + 1) == Depth(line, a, n)
  {
    OpenOneMore(line, n, a);
    if OpenUpTo(line, a, n) {
      var t := StackMembers(line, n, stack, closes, a);
    }
  }

  lemma PairedOpen(line: Text, n: nat, stack: seq<nat>, closes: map<nat, nat>)
    requires n < |line| && Paired(line, n, stack, closes) && Opens(line, n)
    ensures Paired(line, n + 1, stack + [n], closes)
  {
    hide Opens, Closes, Depth, OpenUpTo, Matches;
    var m, now := n + 1, stack + [n];
    forall t: nat | t < |now| ensures OpenedAt(line, m, now, t) {
      if t < |stack| {
        assert OpenedAt(line, n, stack, t);
        OpenedOneMore(line, n, stack[t]);
      } else {
        OpenedOneMore(line, n, n);
      }
    }
    forall a: nat | OpenUpTo(line, a, n + 1) ensures a in now {
      OpenedOneMore(line, n, a);
    }
    forall a: nat ensures !Matches(line, a, n) {
      OpenIsNoClose(line, n, a);
    }
    PairsSame(line, n, closes);
  }

  lemma OpenIsNoClose(line: Text, n: nat, a: nat)
    requires Opens(line, n)
    ensures !Matches(line, a, n)
  {
  }

  lemma OpenedOneMore(line: Text, n: nat, a: nat)
    requires n < |line| && Opens(line, n)
    ensures OpenUpTo(line, a, n + 1) <==> a == n || OpenUpTo(line, a, n)
    ensures OpenUpTo(line, a, n) ==> a < n && Depth(line, a, n + 1) == Depth(line, a, n) + 1
    ensures Depth(line, n, n + 1) == 1
  {
    assert Depth(line, n, n) == 0;
    OpenOneMore(line, n, a);
  }

  lemma PairedClose(line: Text, n: nat, stack: seq<nat>, closes: map<nat, nat>)
    requires n < |line| && Paired(line, n, stack, closes) && Closes(line, n) && stack != []
    ensures Paired(line, n + 1, stack[..|stack| - 1], closes[stack[|stack| - 1] := n])
  {
    StackedClose(line, n, stack, closes);
    hide OpenUpTo, Opens, Closes, Depth, Matches, Stacked;
    var a := stack[|stack| - 1];
    LastIsNotClosed(line, n, stack, closes);
    forall c: nat ensures Matches(line, c, n) <==> c == a {
      CloseOneMore(line, n, stack, closes, c);
    }
  }

  lemma StackedClose(line: Text, n: nat, stack: seq<nat>, closes: map<nat, nat>)
    requires n < |line| && Paired(line, n, stack, closes) && Closes(line, n) && stack != []
    ensures Stacked(line, n + 1, stack[..|stack| - 1])
  {
    hide Opens, Closes, Depth, Matches, OpenUpTo, PairsBefore;
    var m, last := n + 1, |stack| - 1;
    var now := stack[..last];
    forall t: nat | t < last ensures OpenedAt(line, m, now, t) {
      assert OpenedAt(line, n, stack, t);
      assert OpenedAt(line, n, stack, last);
      CloseOneMore(line, n, stack, closes, stack[t]);
    }
    forall a: nat | OpenUpTo(line, a, n + 1) ensures a in now {
      CloseOneMore(line, n, stack, closes, a);
      var t := StackMembers(line, n, stack, closes, a);
      assert now[t] == a;
    }
  }

  lemma CloseOneMore(line: Text, n: nat, stack: seq<nat>, closes: map<nat, nat>, a: nat)
    requires n < |line| && Paired(line, n, stack, closes) && Closes(line, n) && stack != []
    ensures OpenUpTo(line, a, n + 1) <==> OpenUpTo(line, a, n) && a != stack[|stack| - 1]
    ensures Matches(line, a, n) <==> a == stack[|stack| - 1]
    ensures OpenUpTo(line, a, n) ==> Depth(line, a, n + 1) == Depth(line, a, n) - 1
  {
    assert OpenedAt(line, n, stack, |stack| - 1);
    OpenOneMore(line, n, a);
    if OpenUpTo(line, a, n) {
      var t := StackMembers(line, n, stack, closes, a);
    }
  }

  lemma LastIsNotClosed(line: Text, n: nat, stack: seq<nat>, closes: map<nat, nat>)
    requires Paired(line, n, stack, closes) && stack != []
    ensures stack[|stack| - 1] !in closes
  {
    assert OpenedAt(line, n, stack, |stack| - 1);
    var a := stack[|stack| - 1];
    if a in closes {
      MatchedIsNotOpen(line, a, closes[a], n);
    }
  }

  // ----- what the matching is

  // Two pairs are nested or disjoint; in particular no bracket has two partners.
  lemma PairsAreNested(line: Text, a: nat, b: nat, c: nat, d: nat)
    requires Matches(line, a, b) && Matches(line, c, d) && a < c
    ensures b < c || d < b
  {
    if c <= b {
      DepthSplits(line, a, c, b + 1);
    }
  }

  lemma PartnersAreUnique(line: Text, a: nat, b: nat, c: nat, d: nat)
    requires Matches(line, a, b) && Matches(line, c, d)
    ensures a == c <==> b == d
  {
    if a < c {
      PairsAreNested(line, a, b, c, d);
    } else if c < a {
      PairsAreNested(line, c, d, a, b);
    } else {
      if b < d {
        MatchedIsNotOpen(line, a, b, d);
      }
      if d < b {
        MatchedIsNotOpen(line, a, d, b);
      }
    }
  }

  // A closing bracket has a partner exactly when something is open before it.
  lemma UnmatchedClose(line: Text, b: nat)
    requires Closes(line, b)
    ensures (exists a: nat :: Matches(line, a, b)) <==> exists a: nat :: OpenUpTo(line, a, b)
  {
    if a: nat :| OpenUpTo(line, a, b) {
      var c := Innermost(line, a, b);
      assert Depth(line, c, b + 1) == 0;
      assert Matches(line, c, b);
    }
  }

  lemma {:induction false} Innermost(line: Text, a: nat, b: nat) returns (c: nat)
    requires OpenUpTo(line, a, b)
    ensures OpenUpTo(line, c, b) && Depth(line, c, b) == 1
    decreases b - a
  {
    c := a;
    if Depth(line, a, b) != 1 {
      c := LastRise(line, a, b, b);
      forall k | c < k <= b ensures Depth(line, c, k) > 0 {
        DepthSplits(line, a, c, k);
      }
      c := Innermost(line, c, b);
    }
  }

  // The last place before `m` where only `a` is open.
  lemma {:induction false} LastRise(line: Text, a: nat, m: nat, b: nat) returns (c: nat)
    requires OpenUpTo(line, a, b) && a < m <= b && forall k | m <= k <= b :: Depth(line, a, k) > 1
    ensures a < c < b && Opens(line, c) && Depth(line, a, c) == 1 && forall k | c < k <= b :: Depth(line, a, k) > 1
    decreases m
  {
    assert Depth(line, a, a) == 0 && Depth(line, a, a + 1) == 1;
    assert Depth(line, a, m) > 1;
    c := m - 1;
    if Depth(line, a, c) != 1 {
      c := LastRise(line, a, c, b);
    }
  }
}
